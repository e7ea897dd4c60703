/**
 Staging a local artifact: remove any earlier copy of the version, then copy the
 source tree. The file system is a map from paths to files and directories;
 symbolic links are not part of this model.
 */
module CopyTree {
  import opened Basics

  type Path = seq<string>
  type Content = seq<byte>

  datatype Node = File(content: Content) | Dir

  type Tree = map<Path, Node>

  /** Whether creating or writing one path works; a failed write may leave something behind. */
  datatype Attempt = Works | Fails(left: Option<Content>)

  type Faults = Path -> Attempt

  function At(t: Tree, p: Path): Option<Node> {
    if p in t then Some(t[p]) else None
  }

  /** Everything lies in directories. */
  ghost predicate WellFormed(t: Tree) {
    forall p, a :: p in t && a < p ==> At(t, a) == Some(Dir)
  }

  ghost predicate Disjoint(a: Path, b: Path) {
    !(a <= b) && !(b <= a)
  }

  function Under(t: Tree, p: Path): set<Path> {
    set q | q in t && p <= q
  }

  function Names(t: Tree, p: Path): set<string> {
    set q | q in t && p < q && |q| == |p| + 1 :: q[|p|]
  }

  /** The place under `to` that matches a place under `from`. */
  function Moved(p: Path, from: Path, to: Path): (r: Path)
    requires from <= p
    ensures to <= r
  {
    to + p[|from|..]
  }

  /** What a copy of `src` to `dst` leaves at `p`: the source laid over what was there, and `dst`'s parents. */
  function CopiedAt(t: Tree, src: Path, dst: Path, p: Path): Option<Node> {
    if dst <= p && Moved(p, dst, src) in t then Some(t[Moved(p, dst, src)])
    else if p < dst then Some(Dir)
    else At(t, p)
  }

  /** Outside `dst` nothing changes, but for missing parents of `dst` that are created. */
  ghost predicate Frames(before: Tree, after: Tree, dst: Path) {
    forall p :: !(dst <= p) ==> At(after, p) == At(before, p) || (p < dst && At(before, p) == None && At(after, p) == Some(Dir))
  }

  /** Whether the parents of `dst` are or can be made directories. */
  ghost predicate ParentsWork(t: Tree, dst: Path, faults: Faults) {
    forall p :: p < dst ==> if p in t then t[p] == Dir else faults(p) == Works
  }

  /** Whether one node can be put at `q`. */
  predicate NodeFits(t: Tree, node: Node, q: Path, faults: Faults) {
    if node == Dir then (if q in t then t[q] == Dir else faults(q) == Works)
    else faults(q) == Works && (q in t ==> t[q] != Dir)
  }

  ghost predicate CanCopy(t: Tree, src: Path, dst: Path, faults: Faults) {
    && src in t && ParentsWork(t, dst, faults)
    && forall p :: p in t && src <= p ==> NodeFits(t, t[p], Moved(p, src, dst), faults)
  }

  // ---------------------------------------------------------------------------
  // Paths

  lemma NothingShared(src: Path, dst: Path, q: Path)
    requires Disjoint(src, dst) && src <= q
    ensures !(dst <= q) && !(q <= dst)
  {
    if dst <= q {
      PrefixesCompare(src, dst, q);
    }
  }

  lemma ChildrenDisjoint(src: Path, dst: Path, n: string)
    requires Disjoint(src, dst)
    ensures Disjoint(src + [n], dst + [n])
  {
    if src <= dst + [n] {
      PrefixesCompare(src, dst, dst + [n]);
    }
    if dst <= src + [n] {
      PrefixesCompare(src, dst, src + [n]);
    }
  }

  /** A path strictly below `p` is below one of `p`'s entries. */
  lemma ChildOf(p: Path, q: Path)
    requires p < q
    ensures p + [q[|p|]] <= q
  {
    assert q[..|p| + 1] == p + [q[|p|]];
  }

  /** The first `i` prefixes of `dst` are directories, and nothing else changed. */
  ghost predicate IsMade(t: Tree, now: Tree, dst: Path, i: nat, faults: Faults) {
    && WellFormed(now)
    && (forall p :: p <= dst && |p| < i ==> At(now, p) == Some(Dir) && (if p in t then t[p] == Dir else faults(p) == Works))
    && (forall p :: At(now, p) == At(t, p) || (p <= dst && |p| < i && At(t, p) == None && At(now, p) == Some(Dir)))
  }

  lemma DirMade(t: Tree, now: Tree, dst: Path, i: nat, faults: Faults)
    requires IsMade(t, now, dst, i, faults) && i <= |dst|
    ensures var q := dst[..i];
            && At(now, q) == At(t, q)
            && (At(now, q) == Some(Dir) ==> IsMade(t, now, dst, i + 1, faults))
            && (At(now, q) == None && faults(q) == Works ==> IsMade(t, now[q := Dir], dst, i + 1, faults))
  {
    var q := dst[..i];
    forall p | p <= dst && |p| < i + 1 ensures |p| < i || p == q {
    }
    var next := now[q := Dir];
    if At(now, q) == None && faults(q) == Works {
      forall p, a | p in next && a < p ensures At(next, a) == Some(Dir) {
        if p == q {
          assert a <= dst && |a| < i;
        } else {
          assert At(now, a) == Some(Dir);
        }
      }
      forall p ensures At(next, p) == At(t, p) || (p <= dst && |p| < i + 1 && At(t, p) == None && At(next, p) == Some(Dir)) {
        assert p != q ==> At(next, p) == At(now, p);
      }
    }
  }

  /** A file may stand where its parents are and no directory is. */
  lemma FilePlaced(t: Tree, q: Path, content: Content)
    requires WellFormed(t) && At(t, q) != Some(Dir) && forall p :: p < q ==> At(t, p) == Some(Dir)
    ensures WellFormed(t[q := File(content)])
  {
    var u := t[q := File(content)];
    forall p, a | p in u && a < p ensures At(u, a) == Some(Dir) {
      assert At(t, a) == Some(Dir);
    }
  }

  // ---------------------------------------------------------------------------
  // Copying a directory, entry by entry

  /** What is at `p` once the directory is made and the entries in `done` are copied. */
  function PartlyAt(t: Tree, src: Path, dst: Path, done: set<string>, p: Path): Option<Node> {
    if dst < p && p[|dst|] in done && Moved(p, dst, src) in t then Some(t[Moved(p, dst, src)])
    else if p <= dst then Some(Dir)
    else At(t, p)
  }

  ghost predicate IsPartly(t: Tree, now: Tree, src: Path, dst: Path, done: set<string>) {
    forall p :: At(now, p) == PartlyAt(t, src, dst, done, p)
  }

  /** Whether everything below one entry fits. */
  ghost predicate EntryFits(t: Tree, src: Path, dst: Path, n: string, faults: Faults) {
    forall p :: p in t && src + [n] <= p ==> NodeFits(t, t[p], Moved(p, src, dst), faults)
  }

  /** The source is as it was while its copy is being made. */
  lemma SourceKept(t: Tree, now: Tree, src: Path, dst: Path, done: set<string>, p: Path)
    requires IsPartly(t, now, src, dst, done) && Disjoint(src, dst) && src <= p
    ensures At(now, p) == At(t, p)
  {
    NothingShared(src, dst, p);
    assert At(now, p) == PartlyAt(t, src, dst, done, p);
  }

  /** So is what lies below an entry still to be copied. */
  lemma EntryKept(t: Tree, now: Tree, src: Path, dst: Path, done: set<string>, n: string, q: Path)
    requires IsPartly(t, now, src, dst, done) && n !in done && dst + [n] <= q
    ensures At(now, q) == At(t, q)
  {
    assert q[|dst|] == n;
    assert At(now, q) == PartlyAt(t, src, dst, done, q);
  }

  lemma MovedEntry(p: Path, src: Path, dst: Path, n: string)
    requires src + [n] <= p
    ensures Moved(p, src + [n], dst + [n]) == Moved(p, src, dst)
  {
  }

  lemma EntryNodeFits(t: Tree, now: Tree, src: Path, dst: Path, done: set<string>, n: string, faults: Faults, p: Path)
    requires IsPartly(t, now, src, dst, done) && Disjoint(src, dst) && n !in done && src + [n] <= p
    ensures At(now, p) == At(t, p)
    ensures p in t ==>
              (NodeFits(now, t[p], Moved(p, src + [n], dst + [n]), faults) <==> NodeFits(t, t[p], Moved(p, src, dst), faults))
  {
    SourceKept(t, now, src, dst, done, p);
    MovedEntry(p, src, dst, n);
    EntryKept(t, now, src, dst, done, n, Moved(p, src + [n], dst + [n]));
    var q := Moved(p, src, dst);
    assert At(now, q) == At(t, q);
  }

  lemma EntryCanCopy(t: Tree, now: Tree, src: Path, dst: Path, done: set<string>, n: string, faults: Faults)
    requires IsPartly(t, now, src, dst, done) && Disjoint(src, dst) && n !in done && src + [n] in t
    ensures CanCopy(now, src + [n], dst + [n], faults) <==> EntryFits(t, src, dst, n, faults)
  {
    EntryNodeFits(t, now, src, dst, done, n, faults, src + [n]);
    forall p | p < dst + [n] ensures p in now && now[p] == Dir {
      assert p <= dst;
      assert At(now, p) == PartlyAt(t, src, dst, done, p);
    }
    assert ParentsWork(now, dst + [n], faults);
    if EntryFits(t, src, dst, n, faults) {
      forall p | p in now && src + [n] <= p ensures NodeFits(now, now[p], Moved(p, src + [n], dst + [n]), faults) {
        EntryNodeFits(t, now, src, dst, done, n, faults, p);
      }
    }
    if CanCopy(now, src + [n], dst + [n], faults) {
      forall p | p in t && src + [n] <= p ensures NodeFits(t, t[p], Moved(p, src, dst), faults) {
        EntryNodeFits(t, now, src, dst, done, n, faults, p);
      }
    }
  }

  lemma EntryCopied(t: Tree, now: Tree, next: Tree, src: Path, dst: Path, done: set<string>, n: string)
    requires IsPartly(t, now, src, dst, done) && Disjoint(src, dst) && n !in done
    requires forall p :: At(next, p) == CopiedAt(now, src + [n], dst + [n], p)
    ensures IsPartly(t, next, src, dst, done + {n})
  {
    forall p ensures At(next, p) == PartlyAt(t, src, dst, done + {n}, p) {
      assert At(next, p) == CopiedAt(now, src + [n], dst + [n], p);
      assert At(now, p) == PartlyAt(t, src, dst, done, p);
      if dst + [n] <= p {
        MovedEntry(p, dst, src, n);
        SourceKept(t, now, src, dst, done, Moved(p, dst, src));
        EntryKept(t, now, src, dst, done, n, p);
      } else if dst < p && p[|dst|] == n {
        ChildOf(dst, p);
      }
    }
  }

  /** When every entry is copied, so is the directory. */
  lemma AllCopied(t: Tree, now: Tree, src: Path, dst: Path)
    requires WellFormed(t) && At(t, src) == Some(Dir) && IsPartly(t, now, src, dst, Names(t, src))
    ensures forall p :: At(now, p) == CopiedAt(t, src, dst, p)
  {
    forall p ensures At(now, p) == CopiedAt(t, src, dst, p) {
      assert At(now, p) == PartlyAt(t, src, dst, Names(t, src), p);
      if dst < p && Moved(p, dst, src) in t {
        InNames(t, src, Moved(p, dst, src));
      } else if dst == p {
        assert Moved(p, dst, src) == src;
      }
    }
  }

  lemma InNames(t: Tree, src: Path, q: Path)
    requires WellFormed(t) && q in t && src < q
    ensures q[|src|] in Names(t, src) && src + [q[|src|]] in t
  {
    ChildOf(src, q);
    var c := src + [q[|src|]];
    assert c in t by {
      if c < q {
        assert At(t, c) == Some(Dir);
      } else {
        assert c == q;
      }
    }
    assert src < c && |c| == |src| + 1 && c[|src|] == q[|src|];
  }

  /** Whether `dst` and its parents are or can be made directories. */
  ghost predicate DirsWork(t: Tree, dst: Path, faults: Faults) {
    forall p :: p <= dst ==> if p in t then t[p] == Dir else faults(p) == Works
  }

  lemma CanCopyDir(t: Tree, src: Path, dst: Path, faults: Faults)
    requires WellFormed(t) && At(t, src) == Some(Dir)
    ensures CanCopy(t, src, dst, faults) <==>
              DirsWork(t, dst, faults) && forall n :: n in Names(t, src) ==> EntryFits(t, src, dst, n, faults)
  {
    assert Moved(src, src, dst) == dst;
    if CanCopy(t, src, dst, faults) {
      assert NodeFits(t, t[src], Moved(src, src, dst), faults);
      forall p | p <= dst ensures if p in t then t[p] == Dir else faults(p) == Works {
        assert p < dst || p == dst;
      }
    }
    if DirsWork(t, dst, faults) && forall n :: n in Names(t, src) ==> EntryFits(t, src, dst, n, faults) {
      forall p | p in t && src <= p ensures NodeFits(t, t[p], Moved(p, src, dst), faults) {
        if src < p {
          InNames(t, src, p);
          ChildOf(src, p);
          assert EntryFits(t, src, dst, p[|src|], faults);
        } else {
          assert p == src;
        }
      }
    }
  }

  /** A directory's entries hold fewer nodes than it does. */
  lemma UnderShrinks(t: Tree, now: Tree, src: Path, dst: Path, done: set<string>, n: string)
    requires IsPartly(t, now, src, dst, done) && Disjoint(src, dst) && src in t
    ensures |Under(now, src + [n])| < |Under(t, src)|
  {
    forall p | p in Under(now, src + [n]) ensures p in Under(t, src) - {src} {
      SourceKept(t, now, src, dst, done, p);
    }
    Fewer(Under(now, src + [n]), Under(t, src) - {src});
  }

  lemma {:induction false} Fewer(a: set<Path>, b: set<Path>)
    requires a <= b
    ensures |a| <= |b|
  {
    assert b == a + (b - a);
  }

  // ---------------------------------------------------------------------------
  // What a copy promises, by how its two paths lie

  /** How a copy ends; `TooDeep` when it has used up the nested calls it was allowed. */
  datatype End = Copied | Failed | TooDeep

  /** Nothing is removed, and a directory stays one. */
  ghost predicate NodesStay(before: Tree, after: Tree) {
    forall p :: (At(after, p) == None ==> At(before, p) == None) && (At(before, p) == Some(Dir) ==> At(after, p) == Some(Dir))
  }

  /**
   Neither path in the other: given as many nested calls as the source has nodes,
   the copy ends. It succeeds exactly when everything can be put in its place, and
   then the destination holds the source laid over what was there.
   */
  ghost predicate ApartFits(t: Tree, after: Tree, src: Path, dst: Path, faults: Faults, depth: nat, r: End) {
    Disjoint(src, dst) ==>
      && (r == TooDeep ==> depth <= |Under(t, src)|)
      && (r == Copied ==> CanCopy(t, src, dst, faults) && forall p :: At(after, p) == CopiedAt(t, src, dst, p))
      && (r == Failed ==> !CanCopy(t, src, dst, faults))
  }

  ghost predicate NoFaults(faults: Faults) {
    forall p :: faults(p) == Works
  }

  /** Nothing at or below `dst`, and no file among its parents. */
  ghost predicate IsFree(t: Tree, dst: Path) {
    (forall p :: p in t ==> !(dst <= p)) && NoFileAbove(t, dst)
  }

  ghost predicate NoFileAbove(t: Tree, dst: Path) {
    forall p :: p in t && p < dst ==> t[p] == Dir
  }

  /**
   The destination inside the source directory: the copy never succeeds, and if no
   call fails it uses up any number of nested calls.
   */
  ghost predicate InsideFits(t: Tree, src: Path, dst: Path, faults: Faults, r: End) {
    src < dst && At(t, src) == Some(Dir) ==>
      r != Copied && (NoFaults(faults) && IsFree(t, dst) ==> r == TooDeep)
  }

  /** A source that is missing, or a file on the way to the destination: the copy fails and writes nothing below `dst`. */
  ghost predicate NothingFits(t: Tree, after: Tree, src: Path, dst: Path, depth: nat, r: End) {
    At(t, src) == None || (src < dst && At(t, src) != Some(Dir)) ==>
      r == (if depth > 0 then Failed else TooDeep) && forall p :: dst <= p ==> At(after, p) == At(t, p)
  }

  // ---------------------------------------------------------------------------
  // One turn of the loop over a directory's entries

  ghost predicate LoopApart(t: Tree, now: Tree, src: Path, dst: Path, todo: set<string>, faults: Faults) {
    Disjoint(src, dst) ==>
      && todo <= Names(t, src) && IsPartly(t, now, src, dst, Names(t, src) - todo)
      && forall n :: n in Names(t, src) - todo ==> EntryFits(t, src, dst, n, faults)
  }

  lemma TurnApart(t: Tree, now: Tree, next: Tree, src: Path, dst: Path, todo: set<string>, n: string, faults: Faults, depth: nat, r: End)
    requires WellFormed(t) && At(t, src) == Some(Dir) && DirsWork(t, dst, faults)
    requires LoopApart(t, now, src, dst, todo, faults) && n in todo && depth > 0
    requires ApartFits(now, next, src + [n], dst + [n], faults, depth - 1, r)
    ensures r == Copied ==> LoopApart(t, next, src, dst, todo - {n}, faults)
    ensures r != Copied ==> ApartFits(t, next, src, dst, faults, depth, r)
  {
    if Disjoint(src, dst) {
      var all := Names(t, src);
      ChildrenDisjoint(src, dst, n);
      NameIsEntry(t, src, n);
      UnderShrinks(t, now, src, dst, all - todo, n);
      EntryCanCopy(t, now, src, dst, all - todo, n, faults);
      CanCopyDir(t, src, dst, faults);
      if r == Copied {
        EntryCopied(t, now, next, src, dst, all - todo, n);
        assert all - (todo - {n}) == all - todo + {n};
      }
    }
  }

  /** The entry that leads to the destination is still to come, and nothing is in the way of any entry still to come. */
  ghost predicate LoopInside(t: Tree, now: Tree, src: Path, dst: Path, todo: set<string>, faults: Faults) {
    src < dst ==>
      && dst[|src|] in todo
      && (NoFaults(faults) && IsFree(t, dst) ==> forall n, p :: n in todo && p in now ==> !(dst + [n] <= p))
  }

  /** With nothing in the way and no failing call, a copy between disjoint paths works. */
  lemma FreeCanCopy(t: Tree, src: Path, dst: Path, faults: Faults)
    requires NoFaults(faults) && IsFree(t, dst) && src in t
    ensures CanCopy(t, src, dst, faults)
  {
  }

  lemma SiblingIsDisjoint(src: Path, dst: Path, n: string)
    requires src < dst && n != dst[|src|]
    ensures Disjoint(src + [n], dst + [n])
  {
    assert (src + [n])[|src|] == n && (dst + [n])[|src|] == dst[|src|];
    assert |src + [n]| < |dst + [n]|;
  }

  lemma OnTheWay(src: Path, dst: Path)
    requires src < dst
    ensures var n := dst[|src|]; src + [n] <= dst && src + [n] < dst + [n]
  {
    ChildOf(src, dst);
  }

  lemma TurnInside(t: Tree, now: Tree, next: Tree, src: Path, dst: Path, todo: set<string>, n: string, faults: Faults, depth: nat, r: End)
    requires LoopInside(t, now, src, dst, todo, faults) && n in todo && src + [n] in now
    requires (forall p :: p <= dst ==> At(now, p) == Some(Dir)) && Frames(now, next, dst + [n])
    requires ApartFits(now, next, src + [n], dst + [n], faults, depth, r) && InsideFits(now, src + [n], dst + [n], faults, r)
    ensures r == Copied ==> LoopInside(t, next, src, dst, todo - {n}, faults)
    ensures r != Copied ==> InsideFits(t, src, dst, faults, r)
  {
    if src < dst {
      var free := NoFaults(faults) && IsFree(t, dst);
      assert free ==> IsFree(now, dst + [n]) by {
        forall p | p in now && p < dst + [n] ensures now[p] == Dir {
          assert p <= dst;
          assert At(now, p) == Some(Dir);
        }
      }
      if n == dst[|src|] {
        OnTheWay(src, dst);
      } else {
        SiblingIsDisjoint(src, dst, n);
        if free {
          FreeCanCopy(now, src + [n], dst + [n], faults);
          forall m, p | m in todo - {n} && dst + [m] <= p ensures p !in next {
            OtherEntry(dst, n, m, p);
            assert At(next, p) == At(now, p);
          }
        }
      }
    }
  }

  lemma OtherEntry(dst: Path, n: string, m: string, p: Path)
    requires n != m && dst + [m] <= p
    ensures !(dst + [n] <= p) && !(p < dst + [n])
  {
    assert p[|dst|] == m;
  }

  lemma TurnFrames(t: Tree, now: Tree, next: Tree, dst: Path, n: string)
    requires Frames(t, now, dst) && Frames(now, next, dst + [n]) && forall p :: p <= dst ==> At(now, p) == Some(Dir)
    ensures Frames(t, next, dst)
  {
    forall p | !(dst <= p)
      ensures At(next, p) == At(t, p) || (p < dst && At(t, p) == None && At(next, p) == Some(Dir))
    {
      assert !(dst + [n] <= p);
    }
  }

  /** Before the first turn. */
  lemma LoopBegins(t: Tree, now: Tree, src: Path, dst: Path, faults: Faults)
    requires WellFormed(t) && WellFormed(now) && At(t, src) == Some(Dir)
    requires forall p :: At(now, p) == At(t, p) || (p <= dst && At(t, p) == None && At(now, p) == Some(Dir))
    requires forall p :: p <= dst ==> At(now, p) == Some(Dir)
    ensures LoopApart(t, now, src, dst, Names(now, src), faults) && LoopInside(t, now, src, dst, Names(now, src), faults)
    ensures Frames(t, now, dst) && NodesStay(t, now) && forall n :: n in Names(now, src) ==> src + [n] in now
  {
    forall n | n in Names(now, src) ensures src + [n] in now {
      NameIsEntry(now, src, n);
    }
    forall p | p in t ensures p in now && now[p] == t[p] {
      assert At(now, p) == At(t, p);
    }
    if Disjoint(src, dst) {
      SameNames(t, now, src, dst);
      assert Names(t, src) - Names(now, src) == {};
      forall p ensures At(now, p) == PartlyAt(t, src, dst, {}, p) {
        assert At(now, p) == At(t, p) || p <= dst;
      }
    }
    if src < dst {
      assert At(now, dst) == Some(Dir);
      InNames(now, src, dst);
      if IsFree(t, dst) {
        forall n, p | n in Names(now, src) && p in now ensures !(dst + [n] <= p) {
          assert At(now, p) == At(t, p) || p <= dst;
        }
      }
    }
  }

  lemma LoopEnds(t: Tree, now: Tree, src: Path, dst: Path, faults: Faults, depth: nat)
    requires WellFormed(t) && At(t, src) == Some(Dir) && DirsWork(t, dst, faults)
    requires LoopApart(t, now, src, dst, {}, faults) && LoopInside(t, now, src, dst, {}, faults)
    ensures ApartFits(t, now, src, dst, faults, depth, Copied) && InsideFits(t, src, dst, faults, Copied)
  {
    if Disjoint(src, dst) {
      assert Names(t, src) - {} == Names(t, src);
      AllCopied(t, now, src, dst);
      CanCopyDir(t, src, dst, faults);
    }
  }

  // ---------------------------------------------------------------------------
  // The file system

  class FileSystem {
    var nodes: Tree

    constructor ()
      ensures nodes == map[[] := Dir]
    {
      nodes := map[[] := Dir];
    }

    /** `create_dir_all`. */
    method CreateDirAll(dst: Path, faults: Faults) returns (ok: bool)
      requires WellFormed(nodes)
      modifies this
      ensures WellFormed(nodes)
      ensures ok <==> DirsWork(old(nodes), dst, faults)
      ensures forall p :: At(nodes, p) == At(old(nodes), p) || (p <= dst && At(old(nodes), p) == None && At(nodes, p) == Some(Dir))
      ensures ok ==> forall p :: p <= dst ==> At(nodes, p) == Some(Dir)
    {
      var i := 0;
      while i <= |dst|
        invariant 0 <= i <= |dst| + 1
        invariant IsMade(old(nodes), nodes, dst, i, faults)
      {
        var q := dst[..i];
        DirMade(old(nodes), nodes, dst, i, faults);
        if q in nodes {
          if nodes[q] != Dir {
            return false;
          }
        } else {
          if faults(q) != Works {
            return false;
          }
          nodes := nodes[q := Dir];
        }
        i := i + 1;
      }
      assert forall p :: p <= dst ==> |p| < i;
      ok := true;
    }

    /** `fs::copy` onto a path whose parent is there. A file copied onto itself is truncated. */
    method CopyFile(src: Path, dst: Path, faults: Faults) returns (ok: bool)
      requires WellFormed(nodes) && forall p :: p < dst ==> At(nodes, p) == Some(Dir)
      modifies this
      ensures WellFormed(nodes)
      ensures ok <==> src in old(nodes) && old(nodes)[src] != Dir && NodeFits(old(nodes), old(nodes)[src], dst, faults)
      ensures ok ==> nodes == old(nodes)[dst := if src == dst then File([]) else old(nodes)[src]]
      ensures forall p :: p != dst ==> At(nodes, p) == At(old(nodes), p)
      ensures NodesStay(old(nodes), nodes)
      ensures At(old(nodes), src) == None || At(old(nodes), src) == Some(Dir) ==> nodes == old(nodes)
    {
      if src !in nodes || nodes[src] == Dir || (dst in nodes && nodes[dst] == Dir) {
        return false;
      }
      match faults(dst)
      case Works =>
        var content := if src == dst then [] else nodes[src].content;
        FilePlaced(nodes, dst, content);
        nodes := nodes[dst := File(content)];
        ok := true;
      case Fails(left) =>
        if left.Some? {
          FilePlaced(nodes, dst, left.value);
          nodes := nodes[dst := File(left.value)];
        }
        ok := false;
    }

    /**
     `copy_tree`, allowed `depth` nested calls. Whatever happens, nothing outside the
     destination changes but missing parents of it, and nothing is removed.
     */
    method Copy(src: Path, dst: Path, faults: Faults, depth: nat) returns (r: End)
      requires WellFormed(nodes)
      modifies this
      ensures WellFormed(nodes) && Frames(old(nodes), nodes, dst) && NodesStay(old(nodes), nodes)
      ensures ApartFits(old(nodes), nodes, src, dst, faults, depth, r)
      ensures InsideFits(old(nodes), src, dst, faults, r)
      ensures NothingFits(old(nodes), nodes, src, dst, depth, r)
      decreases depth, 1
    {
      if depth == 0 {
        return TooDeep;
      }
      if src in nodes && nodes[src] == Dir {
        r := CopyDir(src, dst, faults, depth);
      } else {
        var ok := CopyLeaf(src, dst, faults);
        r := if ok then Copied else Failed;
      }
    }

    /** A file, or nothing at all. */
    method CopyLeaf(src: Path, dst: Path, faults: Faults) returns (ok: bool)
      requires WellFormed(nodes) && At(nodes, src) != Some(Dir)
      modifies this
      ensures WellFormed(nodes) && Frames(old(nodes), nodes, dst) && NodesStay(old(nodes), nodes)
      ensures Disjoint(src, dst) ==> (ok <==> CanCopy(old(nodes), src, dst, faults))
      ensures Disjoint(src, dst) && ok ==> forall p :: At(nodes, p) == CopiedAt(old(nodes), src, dst, p)
      ensures At(old(nodes), src) == None || src < dst ==> !ok && forall p :: dst <= p ==> At(nodes, p) == At(old(nodes), p)
    {
      ghost var t := nodes;
      if dst == [] {
        ok := CopyFile(src, dst, faults);
        return;
      }
      var parent := dst[..|dst| - 1];
      LeafCanCopy(t, src, dst, faults);
      ok := CreateDirAll(parent, faults);
      assert src < dst ==> src <= parent;
      ghost var made := nodes;
      if ok {
        forall p | p < dst ensures At(nodes, p) == Some(Dir) {
          assert p <= parent;
        }
        assert At(nodes, dst) == At(t, dst);
        assert !(src < dst) ==> At(nodes, src) == At(t, src);
        ok := CopyFile(src, dst, faults);
        if ok && Disjoint(src, dst) {
          LeafCopied(t, made, src, dst);
        }
      }
      LeafFrames(t, made, nodes, dst);
    }

    /** A directory: made first, then filled, its entries in any order. */
    method CopyDir(src: Path, dst: Path, faults: Faults, depth: nat) returns (r: End)
      requires WellFormed(nodes) && At(nodes, src) == Some(Dir) && depth > 0
      modifies this
      ensures WellFormed(nodes) && Frames(old(nodes), nodes, dst) && NodesStay(old(nodes), nodes)
      ensures ApartFits(old(nodes), nodes, src, dst, faults, depth, r)
      ensures InsideFits(old(nodes), src, dst, faults, r)
      decreases depth, 0
    {
      ghost var t := nodes;
      CanCopyDir(t, src, dst, faults);
      var made := CreateDirAll(dst, faults);
      if !made {
        FreeDirsWork(t, dst, faults);
        return Failed;
      }
      LoopBegins(t, nodes, src, dst, faults);
      var todo := Names(nodes, src);
      while todo != {}
        invariant WellFormed(nodes) && Frames(t, nodes, dst) && NodesStay(t, nodes)
        invariant forall p :: p <= dst ==> At(nodes, p) == Some(Dir)
        invariant forall n :: n in todo ==> src + [n] in nodes
        invariant LoopApart(t, nodes, src, dst, todo, faults)
        invariant LoopInside(t, nodes, src, dst, todo, faults)
      {
        var n :| n in todo;
        ghost var now := nodes;
        r := Copy(src + [n], dst + [n], faults, depth - 1);
        TurnFrames(t, now, nodes, dst, n);
        TurnApart(t, now, nodes, src, dst, todo, n, faults, depth, r);
        TurnInside(t, now, nodes, src, dst, todo, n, faults, depth - 1, r);
        if r != Copied {
          return;
        }
        todo := todo - {n};
        forall m | m in todo ensures src + [m] in nodes {
          assert At(now, src + [m]) != None;
        }
      }
      LoopEnds(t, nodes, src, dst, faults, depth);
      r := Copied;
    }

    /** `remove_dir_all` and `remove_file`, best effort: `stuck` are the paths that resist. */
    method Remove(path: Path, stuck: set<Path>)
      requires WellFormed(nodes)
      modifies this
      ensures WellFormed(nodes)
      ensures IsCleared(old(nodes), nodes, path, stuck)
    {
      ghost var t := nodes;
      nodes := map p | p in nodes && !(path <= p && !Survives(p, stuck)) :: nodes[p];
      forall p, a | p in nodes && a < p ensures At(nodes, a) == Some(Dir) {
        assert At(t, a) == Some(Dir);
        if path <= a {
          assert path <= p && Survives(p, stuck);
          SurvivorsHaveParents(a, p, stuck);
        }
      }
    }

    /**
     `stage`: whatever was staged for this version is replaced by a copy of the
     source, wherever the two paths lie.

     Disjoint: the copy ends, the source survives, and on success the staged tree
     holds the source's nodes and nothing else but what could not be removed.
     Source at or below the staged path: the stage fails and the source is gone.
     Staged path below the source directory: the stage never succeeds, and when
     nothing fails it never ends. In each case nothing outside the staged path
     changes but missing parents of it.
     */
    method Stage(path: Path, staged: Path, stuck: set<Path>, faults: Faults, depth: nat) returns (r: End)
      requires WellFormed(nodes)
      modifies this
      ensures WellFormed(nodes) && Frames(old(nodes), nodes, staged)
      ensures path !in old(nodes) ==> r == Failed && nodes == old(nodes)
      ensures Disjoint(path, staged) && depth > |Under(old(nodes), path)| ==> r != TooDeep
      ensures Disjoint(path, staged) ==> forall p :: path <= p ==> At(nodes, p) == At(old(nodes), p)
      ensures Disjoint(path, staged) && r == Copied ==>
                forall q :: At(nodes, staged + q) == StagedAt(old(nodes), path, staged, stuck, q)
      ensures Disjoint(path, staged) && stuck == {} && r != TooDeep ==>
                (r == Copied <==> path in old(nodes) && Placeable(old(nodes), path, staged, faults))
      ensures staged <= path && path in old(nodes) && !Survives(path, stuck) ==>
                (depth > 0 ==> r == Failed) && forall p :: path <= p ==> p !in nodes
      ensures path < staged ==> r != Copied
      ensures path < staged && path in old(nodes) && stuck == {} && NoFaults(faults) && NoFileAbove(old(nodes), staged) ==> r == TooDeep
    {
      ghost var t := nodes;
      if path !in nodes {
        return Failed;
      }
      Remove(staged, stuck);
      ghost var cleared := nodes;
      r := Copy(path, staged, faults, depth);
      ClearedFrames(t, cleared, nodes, staged, stuck);
      if Disjoint(path, staged) {
        StagedApart(t, cleared, nodes, path, staged, stuck, faults, depth, r);
      } else if staged <= path {
        if !Survives(path, stuck) {
          SourceIsGone(t, cleared, nodes, path, staged, stuck);
        }
      } else {
        StagedInside(t, cleared, path, staged, stuck);
      }
    }
  }

  lemma StagedApart(t: Tree, cleared: Tree, after: Tree, path: Path, staged: Path, stuck: set<Path>, faults: Faults, depth: nat, r: End)
    requires Disjoint(path, staged) && path in t && IsCleared(t, cleared, staged, stuck)
    requires ApartFits(cleared, after, path, staged, faults, depth, r) && Frames(cleared, after, staged)
    ensures depth > |Under(t, path)| ==> r != TooDeep
    ensures forall p :: path <= p ==> At(after, p) == At(t, p)
    ensures r == Copied ==> forall q :: At(after, staged + q) == StagedAt(t, path, staged, stuck, q)
    ensures stuck == {} && r != TooDeep ==> (r == Copied <==> Placeable(t, path, staged, faults))
  {
    forall p | path <= p ensures At(cleared, p) == At(t, p) && At(after, p) == At(t, p) {
      NothingShared(path, staged, p);
    }
    assert Under(cleared, path) == Under(t, path) by {
      forall p | path <= p ensures p in cleared <==> p in t {
        assert At(cleared, p) == At(t, p);
      }
    }
    if r == Copied {
      forall q ensures At(after, staged + q) == StagedAt(t, path, staged, stuck, q) {
        assert At(cleared, path + q) == At(t, path + q);
        assert At(after, staged + q) == CopiedAt(cleared, path, staged, staged + q);
        assert Moved(staged + q, staged, path) == path + q;
      }
    }
    if stuck == {} {
      ClearedCanCopy(t, cleared, path, staged, faults);
    }
  }

  /** Removing the staged path took the source with it. */
  lemma SourceIsGone(t: Tree, cleared: Tree, after: Tree, path: Path, staged: Path, stuck: set<Path>)
    requires staged <= path && !Survives(path, stuck) && IsCleared(t, cleared, staged, stuck)
    requires At(cleared, path) == None ==> forall p :: staged <= p ==> At(after, p) == At(cleared, p)
    ensures At(cleared, path) == None && forall p :: path <= p ==> p !in after
  {
    assert At(cleared, path) == None;
    forall p | path <= p ensures p !in after {
      if Survives(p, stuck) && path < p {
        SurvivorsHaveParents(path, p, stuck);
      }
      assert At(cleared, p) == None;
      assert At(after, p) == At(cleared, p);
    }
  }

  lemma StagedInside(t: Tree, cleared: Tree, path: Path, staged: Path, stuck: set<Path>)
    requires path < staged && IsCleared(t, cleared, staged, stuck)
    ensures At(cleared, path) == At(t, path)
    ensures stuck == {} && NoFileAbove(t, staged) ==> IsFree(cleared, staged)
  {
    assert At(cleared, path) == At(t, path);
    if stuck == {} {
      forall p | p in cleared ensures !(staged <= p) && At(t, p) == Some(cleared[p]) {
        assert At(cleared, p) == Some(cleared[p]);
      }
    }
  }

  ghost predicate IsCleared(t: Tree, cleared: Tree, staged: Path, stuck: set<Path>) {
    forall p :: At(cleared, p) == if staged <= p && !Survives(p, stuck) then None else At(t, p)
  }

  /** Nothing in the way of the directories themselves. */
  lemma FreeDirsWork(t: Tree, dst: Path, faults: Faults)
    ensures NoFaults(faults) && IsFree(t, dst) ==> DirsWork(t, dst, faults)
  {
  }

  /** What is staged at `r`: the source's node there, or else an old one that could not be removed. */
  function StagedAt(t: Tree, path: Path, staged: Path, stuck: set<Path>, r: Path): Option<Node> {
    if path + r in t then At(t, path + r)
    else if Survives(staged + r, stuck) then At(t, staged + r)
    else None
  }

  /** The staged tree is exactly the source when nothing that resisted removal lies outside the source's shape. */
  lemma ExactCopyIff(t: Tree, path: Path, staged: Path, stuck: set<Path>)
    ensures (forall r :: StagedAt(t, path, staged, stuck, r) == At(t, path + r)) <==>
            (forall p :: p in t && staged <= p && Survives(p, stuck) ==> Moved(p, staged, path) in t)
  {
    if forall r :: StagedAt(t, path, staged, stuck, r) == At(t, path + r) {
      forall p | p in t && staged <= p && Survives(p, stuck) ensures Moved(p, staged, path) in t {
        var r := p[|staged|..];
        assert staged + r == p;
        assert StagedAt(t, path, staged, stuck, r) == At(t, path + r);
      }
    }
    if forall p :: p in t && staged <= p && Survives(p, stuck) ==> Moved(p, staged, path) in t {
      forall r ensures StagedAt(t, path, staged, stuck, r) == At(t, path + r) {
        assert Moved(staged + r, staged, path) == path + r;
      }
    }
  }

  /** A path survives a removal if it, or something below it, could not be removed. */
  predicate Survives(p: Path, stuck: set<Path>) {
    exists q | q in stuck :: p <= q
  }

  lemma SurvivorsHaveParents(a: Path, p: Path, stuck: set<Path>)
    requires a < p && Survives(p, stuck)
    ensures Survives(a, stuck)
  {
    var q :| q in stuck && p <= q;
    assert a <= q;
  }

  /** With the old copy gone: the parents work, and no creation under the staged path fails. */
  ghost predicate Placeable(t: Tree, path: Path, staged: Path, faults: Faults) {
    ParentsWork(t, staged, faults) && forall p :: p in t && path <= p ==> faults(Moved(p, path, staged)) == Works
  }

  lemma ClearedFrames(t: Tree, cleared: Tree, after: Tree, staged: Path, stuck: set<Path>)
    requires IsCleared(t, cleared, staged, stuck) && Frames(cleared, after, staged)
    ensures Frames(t, after, staged)
  {
    forall p | !(staged <= p)
      ensures At(after, p) == At(t, p) || (p < staged && At(t, p) == None && At(after, p) == Some(Dir))
    {
      assert At(cleared, p) == At(t, p);
    }
  }

  lemma ClearedCanCopy(t: Tree, cleared: Tree, path: Path, staged: Path, faults: Faults)
    requires Disjoint(path, staged) && path in t
    requires forall p :: At(cleared, p) == if staged <= p then None else At(t, p)
    ensures CanCopy(cleared, path, staged, faults) <==> Placeable(t, path, staged, faults)
  {
    forall p | path <= p ensures At(cleared, p) == At(t, p) {
      NothingShared(path, staged, p);
    }
    forall p | p < staged ensures p in cleared <==> p in t ensures p in t ==> cleared[p] == t[p] {
      assert At(cleared, p) == At(t, p);
    }
    forall p | path <= p ensures At(cleared, Moved(p, path, staged)) == None {
    }
    assert At(cleared, path) == At(t, path);
    assert ParentsWork(cleared, staged, faults) <==> ParentsWork(t, staged, faults);
    if CanCopy(cleared, path, staged, faults) {
      forall p | p in t && path <= p ensures faults(Moved(p, path, staged)) == Works {
        assert At(cleared, p) == At(t, p) && At(cleared, Moved(p, path, staged)) == None;
        assert NodeFits(cleared, cleared[p], Moved(p, path, staged), faults);
      }
    }
    if Placeable(t, path, staged, faults) {
      forall p | p in cleared && path <= p ensures NodeFits(cleared, cleared[p], Moved(p, path, staged), faults) {
        assert At(cleared, p) == At(t, p) && At(cleared, Moved(p, path, staged)) == None;
      }
    }
  }

  /** Making the destination does not change what the source lists. */
  lemma SameNames(t: Tree, now: Tree, src: Path, dst: Path)
    requires Disjoint(src, dst)
    requires forall p :: At(now, p) == At(t, p) || p <= dst
    ensures Names(now, src) == Names(t, src)
  {
    forall p | src < p ensures p in now <==> p in t {
      NothingShared(src, dst, p);
      assert At(now, p) == At(t, p);
    }
  }

  lemma LeafCopied(t: Tree, made: Tree, src: Path, dst: Path)
    requires WellFormed(t) && src in t && t[src] != Dir && At(made, src) == At(t, src)
    requires forall p :: At(made, p) == At(t, p) || (p < dst && At(made, p) == Some(Dir))
    requires forall p :: p < dst ==> At(made, p) == Some(Dir)
    ensures forall p :: At(made[dst := t[src]], p) == CopiedAt(t, src, dst, p)
  {
    forall p ensures At(made[dst := t[src]], p) == CopiedAt(t, src, dst, p) {
      assert At(made, p) == At(t, p) || (p < dst && At(made, p) == Some(Dir));
      assert dst < p && Moved(p, dst, src) in t ==> At(t, src) == Some(Dir);
      assert p == dst ==> Moved(p, dst, src) == src;
    }
  }

  lemma LeafFrames(t: Tree, made: Tree, after: Tree, dst: Path)
    requires forall p :: At(made, p) == At(t, p) || (p < dst && At(t, p) == None && At(made, p) == Some(Dir))
    requires (forall p :: p != dst ==> At(after, p) == At(made, p)) && NodesStay(made, after)
    ensures Frames(t, after, dst) && NodesStay(t, after)
  {
    forall p ensures At(after, p) == None ==> At(t, p) == None ensures At(t, p) == Some(Dir) ==> At(after, p) == Some(Dir) {
      assert At(made, p) == At(t, p) || At(t, p) == None;
    }
  }

  lemma NameIsEntry(t: Tree, src: Path, n: string)
    requires n in Names(t, src)
    ensures src + [n] in t
  {
    var q :| q in t && src < q && |q| == |src| + 1 && q[|src|] == n;
    assert q == src + [n];
  }

  lemma LeafCanCopy(t: Tree, src: Path, dst: Path, faults: Faults)
    requires WellFormed(t) && At(t, src) != Some(Dir) && dst != []
    ensures CanCopy(t, src, dst, faults) <==>
              DirsWork(t, dst[..|dst| - 1], faults) && src in t && NodeFits(t, t[src], dst, faults)
  {
    var parent := dst[..|dst| - 1];
    assert Moved(src, src, dst) == dst;
    assert ParentsWork(t, dst, faults) <==> DirsWork(t, parent, faults) by {
      if ParentsWork(t, dst, faults) {
        forall p | p <= parent ensures if p in t then t[p] == Dir else faults(p) == Works {
          assert p < dst;
        }
      }
      if DirsWork(t, parent, faults) {
        forall p | p < dst ensures if p in t then t[p] == Dir else faults(p) == Works {
          assert p <= parent;
        }
      }
    }
    forall p | p in t && src <= p ensures p == src {
      assert src < p ==> At(t, src) == Some(Dir);
    }
  }
}
