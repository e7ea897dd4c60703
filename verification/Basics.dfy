/** Types and sequence laws the rest of the project shares. */
module Basics {

  datatype Option<+T> = None | Some(value: T) {
    function GetOr(default: T): T {
      if Some? then value else default
    }
  }

  datatype Result<+T, +E> = Ok(value: T) | Err(error: E)

  const U32_MAX: nat := 0xFFFF_FFFF

  newtype byte = x: int | 0 <= x < 256

  function Min(a: int, b: int): int {
    if a <= b then a else b
  }

  function Max(a: int, b: int): int {
    if a <= b then b else a
  }

  /** A host's place in the load balancer's pool, as a drain captures it. */
  datatype PoolState = InPool | Draining | Removed

  datatype Membership = Membership(state: PoolState, weight: Option<nat>)

  /** Consecutive pieces of at most `size` elements, as `slice::chunks` cuts them. */
  function Chunks<T>(s: seq<T>, size: nat): (r: seq<seq<T>>)
    requires size > 0
    ensures Concat(r) == s
    ensures forall i :: 0 <= i < |r| ==> 0 < |r[i]| <= size && (i < |r| - 1 ==> |r[i]| == size)
  {
    if s == [] then []
    else
      var k := if |s| <= size then |s| else size;
      assert s[..k] + s[k..] == s;
      [s[..k]] + Chunks(s[k..], size)
  }

  function Concat<T>(parts: seq<seq<T>>): seq<T> {
    if parts == [] then [] else parts[0] + Concat(parts[1..])
  }

  lemma {:induction false} ConcatSplit<T>(a: seq<seq<T>>, b: seq<seq<T>>)
    ensures Concat(a + b) == Concat(a) + Concat(b)
  {
    if a == [] {
      assert a + b == b;
    } else {
      assert (a + b)[1..] == a[1..] + b;
      ConcatSplit(a[1..], b);
    }
  }

  /** Of two prefixes of one sequence, one is a prefix of the other. */
  lemma PrefixesCompare<T>(a: seq<T>, b: seq<T>, s: seq<T>)
    requires a <= s && b <= s
    ensures a <= b || b <= a
  {
    assert a == s[..|a|] && b == s[..|b|];
  }

  lemma Assoc<T>(a: seq<T>, b: seq<T>, c: seq<T>)
    ensures a + b + c == a + (b + c)
  {
  }

  lemma ConcatOne<T>(part: seq<T>)
    ensures Concat([part]) == part
  {
    assert [part][1..] == [];
  }

  lemma ConcatUpTo<T>(parts: seq<seq<T>>, i: nat)
    requires i < |parts|
    ensures Concat(parts[..i + 1]) == Concat(parts[..i]) + parts[i]
  {
    ConcatOne(parts[i]);
    ConcatSplit(parts[..i], [parts[i]]);
    TakenApart(parts, i);
  }

  lemma ConcatAround<T>(before: seq<seq<T>>, part: seq<T>, after: seq<seq<T>>)
    ensures Concat(before + [part] + after) == Concat(before) + part + Concat(after)
  {
    ConcatOne(part);
    ConcatSplit(before, [part]);
    ConcatSplit(before + [part], after);
  }

  lemma TakenApart<T>(s: seq<T>, i: nat)
    requires i < |s|
    ensures s == s[..i] + [s[i]] + s[i + 1..] && s[..i + 1] == s[..i] + [s[i]]
  {
  }

  /** The part at `i`, with what comes before and after it. */
  lemma ConcatAt<T>(parts: seq<seq<T>>, i: nat)
    requires i < |parts|
    ensures Concat(parts) == Concat(parts[..i]) + parts[i] + Concat(parts[i + 1..])
  {
    TakenApart(parts, i);
    ConcatAround(parts[..i], parts[i], parts[i + 1..]);
  }
}
