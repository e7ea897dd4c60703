/**
 Staging and activating a release. The release adapter checks the digest of what
 it downloaded before it writes the staged file; the host-pull adapter has `curl`
 write the staged file first and checks it afterwards.
 */
module Releases {
  import opened Basics
  import opened Text

  type Version = string
  type Digest = string
  type Content = seq<byte>

  /** The hash function, and the digest published for each version. */
  datatype World = World(digest: Content -> Digest, published: Version -> Digest)

  datatype Adapter = Release | Pull

  /** Where the checksum comes from: an inline setting wins over a URL. */
  datatype Source = Source(inline: Option<string>, url: bool)

  /** A write that fails may leave nothing changed or only the beginning of the file. */
  datatype Write = Complete | Untouched | Torn(kept: nat)

  /** What one stage meets: the download, the checksum file, `mkdir`, the write, the hash command. */
  datatype Env = Env(bytes: Option<Content>, sum: Option<string>, mkdir: bool, write: Write, hash: bool)

  /** The expected digest: `Err` when it cannot be fetched, `Ok(None)` when there is none. */
  function Expected(source: Source, sum: Option<string>): Result<Option<Digest>, ()> {
    if source.inline.Some? then Ok(Some(Lower(Trim(source.inline.value, IsWhite))))
    else if !source.url then Ok(None)
    else if sum.None? then Err(())
    else
      var words := Words(sum.value, IsWhite);
      Ok(if words == [] then None else Some(Lower(words[0])))
  }

  // ---------------------------------------------------------------------------
  // One host's files and active link

  /** `held` are the versions some stage returned; `latest` those whose latest stage succeeded. */
  datatype State = State(files: map<Version, Content>, link: Option<Version>, held: set<Version>, latest: set<Version>)

  const EMPTY := State(map[], None, {}, {})

  datatype Event = Stage(version: Version, source: Source, env: Env) | Activate(version: Version, ok: bool)

  /** The staged files after a write of `bytes`. */
  function Written(files: map<Version, Content>, v: Version, bytes: Content, write: Write): map<Version, Content> {
    match write
    case Complete => files[v := bytes]
    case Untouched => files
    case Torn(kept) => files[v := bytes[..Min(kept, |bytes|)]]
  }

  /** Whether the bytes pass the check: without an expected digest there is none. */
  predicate Passes(w: World, expected: Option<Digest>, bytes: Content) {
    expected.Some? ==> expected.value == w.digest(bytes)
  }

  /** The release adapter's stage: the files it leaves and whether it succeeds. */
  function ReleaseStage(w: World, files: map<Version, Content>, v: Version, source: Source, env: Env): (map<Version, Content>, bool) {
    if env.bytes.None? then (files, false)
    else
      match Expected(source, env.sum)
      case Err(_) => (files, false)
      case Ok(expected) =>
        if !Passes(w, expected, env.bytes.value) || !env.mkdir then (files, false)
        else (Written(files, v, env.bytes.value, env.write), env.write == Complete)
  }

  /** The host-pull adapter's stage. */
  function PullStage(w: World, files: map<Version, Content>, v: Version, source: Source, env: Env): (map<Version, Content>, bool) {
    if !env.mkdir || env.bytes.None? then (files, false)
    else
      var after := Written(files, v, env.bytes.value, env.write);
      if env.write != Complete then (after, false)
      else
        match Expected(source, env.sum)
        case Err(_) => (after, false)
        case Ok(expected) => (after, expected.Some? ==> env.hash && Passes(w, expected, env.bytes.value))
  }

  function StageWith(a: Adapter, w: World, files: map<Version, Content>, v: Version, source: Source, env: Env): (map<Version, Content>, bool) {
    if a == Release then ReleaseStage(w, files, v, source, env) else PullStage(w, files, v, source, env)
  }

  /** An activate needs an artifact some earlier stage returned. */
  function Step(a: Adapter, w: World, s: State, e: Event): State {
    match e
    case Stage(v, source, env) =>
      var r := StageWith(a, w, s.files, v, source, env);
      State(r.0, s.link, if r.1 then s.held + {v} else s.held, if r.1 then s.latest + {v} else s.latest - {v})
    case Activate(v, ok) => if v in s.held && ok then s.(link := Some(v)) else s
  }

  function Run(a: Adapter, w: World, events: seq<Event>): State {
    if events == [] then EMPTY else Step(a, w, Run(a, w, events[..|events| - 1]), events[|events| - 1])
  }

  /** The digest is there and right, or not asked for. */
  predicate Admits(w: World, source: Source, sum: Option<string>, bytes: Content) {
    && (source.inline.None? && source.url ==> sum.Some?)
    && (Expected(source, sum).Ok? && Expected(source, sum).value.Some? ==> Expected(source, sum).value.value == w.digest(bytes))
  }

  /**
   When a stage succeeds, and when it writes at all. Both adapters need the
   download, the directory, a whole write and an admitted digest; the release
   adapter asks for the digest before it writes, host-pull afterwards, and needs
   the hash command to check one.
   */
  lemma StagesIff(w: World, files: map<Version, Content>, v: Version, source: Source, env: Env)
    ensures var (left, ok) := ReleaseStage(w, files, v, source, env);
            var ready := env.mkdir && env.bytes.Some? && Admits(w, source, env.sum, env.bytes.value);
            (ok <==> ready && env.write == Complete) && left == if ready then Written(files, v, env.bytes.value, env.write) else files
    ensures var (left, ok) := PullStage(w, files, v, source, env);
            var ready := env.mkdir && env.bytes.Some?;
            && left == (if ready then Written(files, v, env.bytes.value, env.write) else files)
            && (ok <==> ready && env.write == Complete && Admits(w, source, env.sum, env.bytes.value)
                        && (env.hash || Expected(source, env.sum) == Ok(None)))
  {
  }

  /** An inline digest is used whatever the checksum file holds, without its padding and in lower case. */
  lemma InlineDigest(left: string, digest: string, right: string, url: bool, sum: Option<string>)
    requires AllIn(left, IsWhite) && AllIn(right, IsWhite) && IsWord(digest, IsWhite)
    ensures Expected(Source(Some(left + digest + right), url), sum) == Ok(Some(Lower(digest)))
  {
    TrimAt(left, digest, right, IsWhite);
  }

  /** Of a checksum file the first word is used, in lower case; the file name after it is not read. */
  lemma FirstWordIsDigest(pad: string, digest: string, rest: string)
    requires AllIn(pad, IsWhite) && IsWord(digest, IsWhite) && (rest == [] || IsWhite(rest[0]))
    ensures Expected(Source(None, true), Some(pad + digest + rest)) == Ok(Some(Lower(digest)))
  {
    WordsStep(pad, digest, rest, IsWhite);
  }

  /** A host as the adapters change it. */
  class Host {
    var files: map<Version, Content>
    var link: Option<Version>

    constructor ()
      ensures files == map[] && link == None
    {
      files, link := map[], None;
    }

    method Put(v: Version, bytes: Content, write: Write)
      modifies this
      ensures files == Written(old(files), v, bytes, write) && link == old(link)
    {
      match write
      case Complete => files := files[v := bytes];
      case Untouched =>
      case Torn(kept) => files := files[v := bytes[..Min(kept, |bytes|)]];
    }

    /** `stage` of the release adapter: download, verify, then write. */
    method StageRelease(w: World, v: Version, source: Source, env: Env) returns (ok: bool)
      modifies this
      ensures (files, ok) == StageWith(Release, w, old(files), v, source, env) && link == old(link)
      ensures forall u :: u != v ==> (u in files <==> u in old(files)) && (u in files ==> files[u] == old(files)[u])
      ensures ok ==> env.bytes.Some? && v in files && files[v] == env.bytes.value
      ensures files != old(files) ==> Expected(source, env.sum).Ok? && env.bytes.Some? && Passes(w, Expected(source, env.sum).value, env.bytes.value)
    {
      if env.bytes.None? {
        return false;
      }
      var expected := Expected(source, env.sum);
      if expected.Err? || !Passes(w, expected.value, env.bytes.value) || !env.mkdir {
        return false;
      }
      Put(v, env.bytes.value, env.write);
      ok := env.write == Complete;
    }

    /** `stage` of the host-pull adapter: write, then verify. */
    method StagePull(w: World, v: Version, source: Source, env: Env) returns (ok: bool)
      modifies this
      ensures (files, ok) == StageWith(Pull, w, old(files), v, source, env) && link == old(link)
      ensures forall u :: u != v ==> (u in files <==> u in old(files)) && (u in files ==> files[u] == old(files)[u])
      ensures ok ==> env.bytes.Some? && v in files && files[v] == env.bytes.value
      ensures ok ==> Expected(source, env.sum).Ok? && Passes(w, Expected(source, env.sum).value, env.bytes.value)
    {
      if !env.mkdir || env.bytes.None? {
        return false;
      }
      Put(v, env.bytes.value, env.write);
      if env.write != Complete {
        return false;
      }
      var expected := Expected(source, env.sum);
      if expected.Err? {
        return false;
      }
      ok := expected.value.None? || (env.hash && Passes(w, expected.value, env.bytes.value));
    }

    /** `activate`: the swap of the active link, which happens whole or not at all. */
    method Activate(v: Version, ok: bool)
      modifies this
      ensures files == old(files) && link == if ok then Some(v) else old(link)
    {
      if ok {
        link := Some(v);
      }
    }
  }

  // ---------------------------------------------------------------------------
  // What is active was verified

  ghost predicate IsVerified(w: World, s: State, v: Version) {
    v in s.files && w.digest(s.files[v]) == w.published(v)
  }

  ghost predicate ActiveIsVerified(w: World, s: State) {
    s.link.Some? ==> IsVerified(w, s, s.link.value)
  }

  /** The checksum source, when it answers, yields the published digest. */
  ghost predicate IsTrusted(w: World, e: Event) {
    e.Stage? ==> Expected(e.source, e.env.sum).Err? || Expected(e.source, e.env.sum) == Ok(Some(w.published(e.version)))
  }

  ghost predicate AllTrusted(w: World, events: seq<Event>) {
    forall i :: 0 <= i < |events| ==> IsTrusted(w, events[i])
  }

  ghost predicate NoneTorn(events: seq<Event>) {
    forall i :: 0 <= i < |events| && events[i].Stage? ==> !events[i].env.write.Torn?
  }

  /**
   With the release adapter, as long as no write is torn, every staged file of
   every version matches its published digest at every moment, whatever is
   downloaded and however often a version is staged again; so does what is active.
   */
  lemma {:induction false} ReleaseFilesAreVerified(w: World, events: seq<Event>)
    requires AllTrusted(w, events) && NoneTorn(events)
    ensures var s := Run(Release, w, events);
            && (forall v :: v in s.files ==> IsVerified(w, s, v)) && s.held <= s.files.Keys
            && ActiveIsVerified(w, s)
  {
    if events != [] {
      ReleaseFilesAreVerified(w, events[..|events| - 1]);
      assert IsTrusted(w, events[|events| - 1]);
    }
  }

  /**
   What a careful caller does: it never stages the active version, and activates
   only a version whose latest stage succeeded.
   */
  ghost predicate IsCareful(s: State, e: Event) {
    match e
    case Stage(v, _, _) => s.link != Some(v)
    case Activate(v, _) => v in s.held ==> v in s.latest
  }

  ghost predicate AllCareful(a: Adapter, w: World, events: seq<Event>) {
    forall i :: 0 <= i < |events| ==> IsCareful(Run(a, w, events[..i]), events[i])
  }

  lemma StageVerifies(a: Adapter, w: World, s: State, e: Event)
    requires e.Stage? && IsTrusted(w, e) && StageWith(a, w, s.files, e.version, e.source, e.env).1
    ensures IsVerified(w, Step(a, w, s, e), e.version)
  {
  }

  lemma StageTouchesOneVersion(a: Adapter, w: World, s: State, e: Event, v: Version)
    requires e.Stage? && v != e.version
    ensures IsVerified(w, Step(a, w, s, e), v) == IsVerified(w, s, v)
    ensures v in Step(a, w, s, e).latest <==> v in s.latest
  {
  }

  /** With either adapter and any failed writes, a careful caller never has an unverified release active. */
  lemma {:induction false} CarefulRunsAreVerified(a: Adapter, w: World, events: seq<Event>)
    requires AllTrusted(w, events) && AllCareful(a, w, events)
    ensures var s := Run(a, w, events);
            ActiveIsVerified(w, s) && forall v :: v in s.latest ==> IsVerified(w, s, v)
  {
    if events != [] {
      var before, e := events[..|events| - 1], events[|events| - 1];
      forall i | 0 <= i < |before| ensures IsCareful(Run(a, w, before[..i]), before[i]) {
        assert before[..i] == events[..i];
        assert IsCareful(Run(a, w, events[..i]), events[i]);
      }
      CarefulRunsAreVerified(a, w, before);
      var s := Run(a, w, before);
      assert IsCareful(s, e) && IsTrusted(w, e);
      CarefulStep(a, w, s, e);
    }
  }

  lemma CarefulStep(a: Adapter, w: World, s: State, e: Event)
    requires IsTrusted(w, e) && IsCareful(s, e) && ActiveIsVerified(w, s) && forall v :: v in s.latest ==> IsVerified(w, s, v)
    ensures var t := Step(a, w, s, e); ActiveIsVerified(w, t) && forall v :: v in t.latest ==> IsVerified(w, t, v)
  {
    if e.Stage? {
      var t := Step(a, w, s, e);
      forall v | v in t.latest || t.link == Some(v) ensures IsVerified(w, t, v) {
        if v == e.version {
          StageVerifies(a, w, s, e);
        } else {
          StageTouchesOneVersion(a, w, s, e, v);
        }
      }
    }
  }

  /** Whether every way a stage of `v` can go keeps what is active verified. */
  ghost predicate StageIsSafe(a: Adapter, w: World, s: State, v: Version, torn: bool) {
    forall source, env :: IsTrusted(w, Stage(v, source, env)) && (env.write.Torn? ==> torn) ==>
      ActiveIsVerified(w, Step(a, w, s, Stage(v, source, env)))
  }

  /**
   Exactly when staging is safe while no write is torn. Host-pull: when the version
   is not the active one. Release: always. `other` is any download that hashes
   differently.
   */
  lemma PullStageIsSafeIff(w: World, s: State, v: Version, other: Content)
    requires ActiveIsVerified(w, s) && w.digest(other) != w.published(v)
    ensures StageIsSafe(Pull, w, s, v, false) <==> s.link != Some(v)
    ensures StageIsSafe(Release, w, s, v, false)
  {
    if s.link == Some(v) {
      var source := Source(None, true);
      var env := Env(Some(other), None, true, Complete, true);
      assert IsTrusted(w, Stage(v, source, env));
      assert Step(Pull, w, s, Stage(v, source, env)).files[v] == other;
      assert !ActiveIsVerified(w, Step(Pull, w, s, Stage(v, source, env)));
    }
  }

  /** When a write can be cut short, both adapters need the version not to be active. */
  lemma TornStageIsSafeIff(a: Adapter, w: World, s: State, v: Version, source: Source, env: Env)
    requires ActiveIsVerified(w, s) && Expected(source, env.sum) == Ok(Some(w.published(v)))
    requires env.bytes.Some? && w.digest(env.bytes.value) == w.published(v) && env.mkdir
    requires env.write.Torn? && w.digest(env.bytes.value[..Min(env.write.kept, |env.bytes.value|)]) != w.published(v)
    ensures StageIsSafe(a, w, s, v, true) <==> s.link != Some(v)
  {
    if s.link == Some(v) {
      assert IsTrusted(w, Stage(v, source, env));
      assert !ActiveIsVerified(w, Step(a, w, s, Stage(v, source, env)));
    }
  }

  /** Host-pull: an artifact staged once, spoilt by a failed second stage and then activated, is not the verified one. */
  lemma StaleActivation(w: World, v: Version, good: Content, bad: Content, source: Source, sum: Option<string>)
    requires w.digest(good) == w.published(v) && w.digest(bad) != w.published(v)
    requires Expected(source, sum) == Ok(Some(w.published(v)))
    ensures var first := Stage(v, source, Env(Some(good), sum, true, Complete, true));
            var second := Stage(v, source, Env(Some(bad), sum, true, Complete, true));
            var events := [first, second, Activate(v, true)];
            && AllTrusted(w, events)
            && !ActiveIsVerified(w, Run(Pull, w, events)) && ActiveIsVerified(w, Run(Release, w, events))
  {
    var first := Stage(v, source, Env(Some(good), sum, true, Complete, true));
    var second := Stage(v, source, Env(Some(bad), sum, true, Complete, true));
    var events := [first, second, Activate(v, true)];
    assert events[..2] == [first, second] && events[..2][..1] == [first] && [first][..0] == [];
    var s1 := Step(Pull, w, EMPTY, first);
    var s2 := Step(Pull, w, s1, second);
    assert Run(Pull, w, events[..2][..1]) == s1;
    assert Run(Pull, w, events[..2]) == s2;
    assert Run(Pull, w, events) == Step(Pull, w, s2, events[2]);
    assert v in s2.held && s2.files[v] == bad;
    ReleaseFilesAreVerified(w, events);
  }

  // ---------------------------------------------------------------------------
  // A checksum source that yields nothing

  /** A stage that succeeds has staged the published bytes, whatever was downloaded. */
  ghost predicate StagesOnlyVerified(a: Adapter, w: World, v: Version, source: Source, sum: Option<string>) {
    forall files, env: Env :: env.sum == sum && StageWith(a, w, files, v, source, env).1 ==>
      env.bytes.Some? && w.digest(env.bytes.value) == w.published(v)
  }

  /**
   With either adapter, success means verified exactly when the expected digest is
   not missing: without one the check is skipped.
   */
  lemma SuccessIsVerifiedIff(a: Adapter, w: World, v: Version, source: Source, sum: Option<string>, other: Content)
    requires w.digest(other) != w.published(v)
    requires Expected(source, sum).Ok? && Expected(source, sum).value.Some? ==> Expected(source, sum).value.value == w.published(v)
    ensures StagesOnlyVerified(a, w, v, source, sum) <==> Expected(source, sum) != Ok(None)
  {
    if Expected(source, sum) == Ok(None) {
      var env := Env(Some(other), sum, true, Complete, true);
      assert StageWith(a, w, map[], v, source, env).1;
    }
  }

  /** When that is: no inline digest, and no checksum URL or a checksum file with no word in it. */
  lemma MissingDigestIff(source: Source, sum: Option<string>)
    ensures Expected(source, sum) == Ok(None) <==>
              source.inline.None? && (source.url ==> sum.Some? && Words(sum.value, IsWhite) == [])
  {
  }

  /** A blank checksum file lets any bytes be staged and activated, with either adapter. */
  lemma BlankChecksumFile(a: Adapter, w: World, v: Version, bad: Content, blank: string)
    requires w.digest(bad) != w.published(v) && AllIn(blank, IsWhite)
    ensures var stage := Stage(v, Source(None, true), Env(Some(bad), Some(blank), true, Complete, true));
            !ActiveIsVerified(w, Run(a, w, [stage, Activate(v, true)]))
  {
    WordsOfPadding(blank, IsWhite);
    var source, env := Source(None, true), Env(Some(bad), Some(blank), true, Complete, true);
    var events := [Stage(v, source, env), Activate(v, true)];
    MissingDigestIff(source, env.sum);
    assert events[..1] == [events[0]] && [events[0]][..0] == [];
    var s := Step(a, w, EMPTY, events[0]);
    assert StageWith(a, w, map[], v, source, env) == (map[v := bad], true);
    assert Run(a, w, events[..1]) == s && v in s.held && s.files[v] == bad;
  }
}
