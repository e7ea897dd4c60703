/**
 What libpq reads of a connection URL, and what is left of a password for it to read
 in the URL that goes on the command line.
 */
module Libpq {
  import opened Basics
  import opened Percent
  import opened Dsn
  import T = Text

  const AMP: byte := 38
  const EQ: byte := 61

  /** `password`, the parameter libpq reads one from. */
  const PASSWORD: Bytes := [112, 97, 115, 115, 119, 111, 114, 100]

  // ---------------------------------------------------------------------------
  // The reader

  predicate EndsLogin(b: byte) {
    b == AT || b == SLASH
  }

  function FindLoginEnd(s: Bytes): (k: nat)
    ensures k <= |s| && (forall i :: 0 <= i < k ==> !EndsLogin(s[i])) && (k < |s| ==> EndsLogin(s[k]))
  {
    if s == [] || EndsLogin(s[0]) then 0 else 1 + FindLoginEnd(s[1..])
  }

  /** What follows `scheme://`. */
  function RestOf(url: Bytes): Bytes {
    match T.SplitOnce(url, MARK)
    case None => []
    case Some(parts) => parts.1
  }

  /** The login: up to the first `@`, if that comes before the first `/`. A `?` does not end it. */
  function Login(rest: Bytes): Option<Bytes> {
    var k := FindLoginEnd(rest);
    if k < |rest| && rest[k] == AT then Some(rest[..k]) else None
  }

  /** The hosts and everything after them. */
  function Netloc(rest: Bytes): Bytes {
    if Login(rest).Some? then rest[|Login(rest).value| + 1..] else rest
  }

  /** The password of a login: what follows its first colon, unless that is nothing. */
  function PasswordIn(login: Bytes): Option<Bytes> {
    match T.SplitOnce(login, [COLON])
    case None => None
    case Some(pair) => if pair.1 == [] then None else Some(pair.1)
  }

  function LoginPassword(url: Bytes): Option<Bytes> {
    match Login(RestOf(url))
    case None => None
    case Some(login) => PasswordIn(login)
  }

  function Params(query: Bytes): seq<Bytes>
    decreases |query|
  {
    match T.SplitOnce(query, [AMP])
    case None => [query]
    case Some(parts) => [parts.0] + Params(parts.1)
  }

  predicate IsPasswordParam(param: Bytes) {
    var parts := T.SplitOnce(param, [EQ]);
    parts.Some? && Decoded(parts.value.0) == PASSWORD
  }

  /** A `password` parameter after the first `?`. */
  predicate Asks(text: Bytes) {
    var parts := T.SplitOnce(text, [QUERY]);
    parts.Some? && exists param | param in Params(parts.value.1) :: IsPasswordParam(param)
  }

  predicate QueryPassword(url: Bytes) {
    Asks(Netloc(RestOf(url)))
  }

  predicate CarriesPassword(url: Bytes) {
    LoginPassword(url).Some? || QueryPassword(url)
  }

  /** A login that runs past a `?`, where the split takes the authority to end. */
  predicate LoginRunsOn(url: Bytes) {
    var login := Login(RestOf(url));
    login.Some? && QUERY in login.value
  }

  // ---------------------------------------------------------------------------
  // Reading what was put together

  lemma {:induction false} FindLoginEndAt(s: Bytes, k: nat)
    requires k <= |s| && (forall i :: 0 <= i < k ==> !EndsLogin(s[i])) && (k < |s| ==> EndsLogin(s[k]))
    ensures FindLoginEnd(s) == k
  {
    if k > 0 {
      FindLoginEndAt(s[1..], k - 1);
    }
  }

  lemma LoginIs(login: Bytes, after: Bytes)
    requires AT !in login && SLASH !in login
    ensures Login(login + [AT] + after) == Some(login) && Netloc(login + [AT] + after) == after
  {
    var s := login + [AT] + after;
    assert forall i :: 0 <= i < |login| ==> s[i] == login[i] && login[i] in login;
    FindLoginEndAt(s, |login|);
    assert s[..|login|] == login && s[|login| + 1..] == after;
  }

  lemma RestIs(scheme: Bytes, rest: Bytes)
    requires scheme == POSTGRES || scheme == POSTGRESQL
    ensures RestOf(scheme + MARK + rest) == rest
  {
    SchemeHasNoColon(scheme);
    T.SplitOnceAt(scheme, MARK, rest);
  }

  lemma NoQuery(s: Bytes)
    requires QUERY !in s
    ensures T.SplitOnce(s, [QUERY]) == None
  {
    SplitOnceParts(s, [QUERY]);
  }

  /** Text before the first `?` does not matter to the query. */
  lemma {:induction false} AsksAfter(a: Bytes, tail: Bytes)
    requires QUERY !in a
    ensures Asks(a + tail) <==> Asks(tail)
  {
    SplitOnceParts(tail, [QUERY]);
    SplitOnceParts(a + tail, [QUERY]);
    if QUERY in tail {
      var parts := T.SplitOnce(tail, [QUERY]).value;
      assert a + tail == (a + parts.0) + [QUERY] + parts.1;
      T.SplitOnceAt(a + parts.0, [QUERY], parts.1);
    } else {
      NoQuery(tail);
      NoQuery(a + tail);
    }
  }

  /** An authority with a login in it: the login ends in the authority, and the query is the tail's. */
  lemma AuthorityReads(x: Bytes, y: Bytes, tail: Bytes)
    requires AT !in x && InAuthority(x) && InAuthority(y)
    ensures var rest := x + [AT] + y + tail;
            Login(rest) == Some(x) && QUERY !in x && (Asks(Netloc(rest)) <==> Asks(tail))
  {
    assert SLASH !in x && QUERY !in x && QUERY !in y by {
      assert EndsAuthority(SLASH) && EndsAuthority(QUERY);
    }
    assert x + [AT] + y + tail == x + [AT] + (y + tail);
    LoginIs(x, y + tail);
    AsksAfter(y, tail);
  }

  /** The first `@` of a text that has one. */
  lemma FirstAt(s: Bytes) returns (x: Bytes, y: Bytes)
    requires AT in s
    ensures s == x + [AT] + y && AT !in x
  {
    SplitOnceParts(s, [AT]);
    var parts := T.SplitOnce(s, [AT]).value;
    x, y := parts.0, parts.1;
  }

  lemma PartOfAuthority(x: Bytes, y: Bytes)
    requires InAuthority(x + [AT] + y)
    ensures InAuthority(x) && InAuthority(y)
  {
    assert forall b :: b in x || b in y ==> b in x + [AT] + y;
  }

  // ---------------------------------------------------------------------------
  // What is left on the command line

  /** The split found a password: none is left in the login, and the query is as it was. */
  lemma AfterSplit(p: Parts)
    requires AreParts(p)
    ensures LoginPassword(Stripped(p)) == None && !LoginRunsOn(Whole(p))
    ensures (QueryPassword(Stripped(p)) <==> Asks(p.tail)) && (QueryPassword(Whole(p)) <==> Asks(p.tail))
  {
    var before, after := p.user + [COLON] + p.raw + [AT] + p.host, p.user + [AT] + p.host;
    assert InAuthority(before) && InAuthority(after);
    assert before[|p.user| + 1 + |p.raw|] == AT && after[|p.user|] == AT;
    RestIs(p.scheme, before + p.tail);
    RestIs(p.scheme, after + p.tail);
    assert Stripped(p) == p.scheme + MARK + (after + p.tail);
    var x, y := FirstAt(before);
    PartOfAuthority(x, y);
    AuthorityReads(x, y, p.tail);
    var u, v := FirstAt(after);
    PartOfAuthority(u, v);
    AuthorityReads(u, v, p.tail);
    FirstIsInUser(p.user, p.host, u, v);
    SplitOnceParts(u, [COLON]);
  }

  lemma FirstIsInUser(user: Bytes, host: Bytes, u: Bytes, v: Bytes)
    requires user + [AT] + host == u + [AT] + v && AT !in u && COLON !in user
    ensures COLON !in u
  {
    var s := user + [AT] + host;
    assert s[|user|] == AT;
    assert forall i :: 0 <= i < |u| ==> u[i] == s[i] && u[i] in u;
    assert forall i :: 0 <= i < |u| ==> u[i] == s[i] == user[i];
  }

  /** The split found none: a login password is one whose login runs past a `?`. */
  lemma WithoutSplit(dsn: Bytes)
    requires SplitPassword(dsn).Ok? && SplitPassword(dsn).value.password.None?
    ensures LoginPassword(dsn).Some? ==> LoginRunsOn(dsn)
  {
    var rest := RestOf(dsn);
    var login := Login(rest);
    if LoginPassword(dsn).Some? && QUERY !in login.value {
      var x := login.value;
      var k := FindLoginEnd(rest);
      assert rest == x + [AT] + rest[k + 1..];
      assert forall i :: 0 <= i < |x| ==> x[i] == rest[i] && x[i] in x;
      LoginIsSplit(dsn, x, rest[k + 1..]);
    }
  }

  /** A login before any `/` and `?`, with a colon in it, is one the split finds. */
  lemma LoginIsSplit(dsn: Bytes, x: Bytes, after: Bytes)
    requires SplitPassword(dsn).Ok? && RestOf(dsn) == x + [AT] + after
    requires InAuthority(x) && PasswordIn(x).Some?
    ensures SplitPassword(dsn).value.password.Some?
  {
    var rest := x + [AT] + after;
    var end := FindEnd(rest);
    assert forall i :: 0 <= i < |x| ==> rest[i] == x[i] && x[i] in x;
    assert rest[|x|] == AT && !EndsAuthority(AT);
    assert end > |x|;
    var authority := rest[..end];
    assert authority[|x|] == AT;
    RSplitOnceParts(authority, AT);
    var login := T.RSplitOnce(authority, AT).value;
    LastIsLater(x, authority, login.0, login.1);
    SplitOnceParts(x, [COLON]);
    SplitOnceParts(login.0, [COLON]);
    var at := |T.SplitOnce(x, [COLON]).value.0|;
    assert x[at] == COLON && login.0[at] == COLON;
  }

  lemma LastIsLater(x: Bytes, authority: Bytes, login: Bytes, host: Bytes)
    requires authority == login + [AT] + host && AT !in host && |x| < |authority| && authority[|x|] == AT && x == authority[..|x|]
    ensures |x| <= |login| && x == login[..|x|]
  {
    assert forall i :: |login| < i < |authority| ==> authority[i] == host[i - |login| - 1] && authority[i] in host;
  }

  /**
   What goes on the command line carries a password, as libpq reads it, exactly when
   the original has one in its query, or one in a login that runs past a `?`: the
   split takes it out of an authority that ends at the first `/` or `?`, and nowhere
   else.
   */
  lemma NoPasswordLeftIff(dsn: Bytes)
    requires SplitPassword(dsn).Ok?
    ensures CarriesPassword(SplitPassword(dsn).value.url) <==> QueryPassword(dsn) || (LoginRunsOn(dsn) && LoginPassword(dsn).Some?)
  {
    if SplitPassword(dsn).value.password.Some? {
      var p := PartsOf(dsn);
      WholeSplits(p);
      AfterSplit(p);
    } else {
      NoPasswordNoChange(dsn);
      WithoutSplit(dsn);
    }
  }

  /** The password the split returns is the one libpq would have read exactly when the login holds no `@` of its own. */
  lemma SplitReadsAsLibpqIff(p: Parts)
    requires AreParts(p) && p.raw != []
    ensures LoginPassword(Whole(p)) == Some(p.raw) <==> AT !in p.user && AT !in p.raw
  {
    var login := p.user + [COLON] + p.raw;
    var rest := login + [AT] + p.host + p.tail;
    RestIs(p.scheme, rest);
    var x, y := FirstAt(login + [AT] + p.host);
    assert InAuthority(login + [AT] + p.host);
    PartOfAuthority(x, y);
    AuthorityReads(x, y, p.tail);
    if AT !in p.user && AT !in p.raw {
      FirstIsAll(login, p.host, x, y);
      T.SplitOnceAt(p.user, [COLON], p.raw);
    } else {
      ShorterLogin(p, login, x, y);
    }
  }

  lemma FirstIsAll(login: Bytes, host: Bytes, x: Bytes, y: Bytes)
    requires login + [AT] + host == x + [AT] + y && AT !in x && AT !in login
    ensures x == login
  {
    var s := login + [AT] + host;
    assert s[|login|] == AT && s[|x|] == AT;
    assert forall i :: 0 <= i < |x| ==> x[i] == s[i] && x[i] in x;
    assert forall i :: 0 <= i < |login| ==> login[i] == s[i] && login[i] in login;
    assert |x| == |login|;
  }

  /** With an `@` in it, the login libpq reads is shorter, and so is any password in it. */
  lemma ShorterLogin(p: Parts, login: Bytes, x: Bytes, y: Bytes)
    requires login == p.user + [COLON] + p.raw && COLON !in p.user && AT in login
    requires login + [AT] + p.host == x + [AT] + y && AT !in x
    ensures PasswordIn(x) != Some(p.raw)
  {
    var s := login + [AT] + p.host;
    var i :| 0 <= i < |login| && login[i] == AT;
    assert s[i] == AT;
    assert forall j :: 0 <= j < |x| ==> x[j] == s[j] && x[j] in x;
    SplitOnceParts(x, [COLON]);
    var pair := T.SplitOnce(x, [COLON]);
    if pair.Some? {
      var k := |pair.value.0|;
      assert x[k] == COLON && x[k] == s[k];
      assert forall j :: 0 <= j < |p.user| ==> s[j] == p.user[j] && p.user[j] in p.user;
    }
  }

  // ---------------------------------------------------------------------------
  // URLs that keep their password

  lemma {:induction false} PlainDecodes(s: Bytes)
    requires PERCENT !in s
    ensures Decoded(s) == s
  {
    if s != [] {
      PlainDecodes(s[1..]);
      assert s == [s[0]] + s[1..];
    }
  }

  lemma OneParam(query: Bytes)
    requires AMP !in query
    ensures Params(query) == [query]
  {
    SplitOnceParts(query, [AMP]);
  }

  lemma PasswordParam(query: Bytes, value: Bytes)
    requires query == PASSWORD + [EQ] + value
    ensures IsPasswordParam(query)
  {
    assert EQ !in PASSWORD && PERCENT !in PASSWORD;
    T.SplitOnceAt(PASSWORD, [EQ], value);
    PlainDecodes(PASSWORD);
  }

  lemma AsksPassword(path: Bytes, query: Bytes)
    requires QUERY !in path && AMP !in query && IsPasswordParam(query)
    ensures Asks(path + [QUERY] + query)
  {
    T.SplitOnceAt(path, [QUERY], query);
    OneParam(query);
    assert query in Params(query);
  }

  /** `postgres://user@host/db?password=value` comes back as it is. */
  lemma QueryPasswordStays(user: Bytes, host: Bytes, db: Bytes, value: Bytes)
    requires InAuthority(user) && COLON !in user && InAuthority(host) && AT !in host && QUERY !in db && AMP !in value
    ensures var query := PASSWORD + [EQ] + value;
            var dsn := POSTGRES + MARK + user + [AT] + host + ([SLASH] + db + [QUERY] + query);
            SplitPassword(dsn) == Ok(Split(dsn, None)) && CarriesPassword(dsn)
  {
    var query := PASSWORD + [EQ] + value;
    PasswordParam(query, value);
    assert AMP !in query by {
      assert AMP !in PASSWORD;
    }
    QueryStays(Parts(POSTGRES, user, [], host, [SLASH] + db + [QUERY] + query), [SLASH] + db, query);
  }

  lemma QueryStays(p: Parts, path: Bytes, query: Bytes)
    requires AreParts(p) && p.tail == path + [QUERY] + query && QUERY !in path && AMP !in query && IsPasswordParam(query)
    ensures SplitPassword(Stripped(p)) == Ok(Split(Stripped(p), None)) && CarriesPassword(Stripped(p))
  {
    StrippedStaysStripped(p);
    AfterSplit(p);
    AsksPassword(path, query);
  }

  /** A raw `?` in the password: `postgres://u:p?w@h/db` comes back as it is, and libpq reads `p?w` from it. */
  lemma RawQuestionMarkStays(user: Bytes, pre: Bytes, post: Bytes, after: Bytes)
    requires InAuthority(user) && COLON !in user && AT !in user && InAuthority(pre) && AT !in pre && AT !in post && SLASH !in post
    ensures var dsn := POSTGRES + MARK + (user + [COLON] + pre + [QUERY] + post + [AT] + after);
            SplitPassword(dsn) == Ok(Split(dsn, None)) && LoginPassword(dsn) == Some(pre + [QUERY] + post)
  {
    var a, rest := user + [COLON] + pre, [QUERY] + post + [AT] + after;
    var login := a + [QUERY] + post;
    var dsn := POSTGRES + MARK + (user + [COLON] + pre + [QUERY] + post + [AT] + after);
    assert user + [COLON] + pre + [QUERY] + post + [AT] + after == a + rest == login + [AT] + after;
    SplitsAtScheme(POSTGRES, a + rest);
    assert InAuthority(a) && AT !in a;
    AuthorityEnds(a, rest);
    RSplitOnceParts(a, AT);
    RestIs(POSTGRES, login + [AT] + after);
    SlashesEndAuthorities(user, pre);
    LoginIs(login, after);
    assert login == user + [COLON] + (pre + [QUERY] + post);
    T.SplitOnceAt(user, [COLON], pre + [QUERY] + post);
  }

  lemma SlashesEndAuthorities(a: Bytes, b: Bytes)
    requires InAuthority(a) && InAuthority(b)
    ensures SLASH !in a && SLASH !in b
  {
    assert EndsAuthority(SLASH);
  }
}
