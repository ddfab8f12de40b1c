/**
  canActivate of src/auth/spark-signature.guard.ts: the skew check, the canonical message and the
  replay check, over runs of requests. The guard reads the clock twice, before verifying the
  signature and again when it consults the cache; the second reading orders the run.
 */
module SignatureGuard {
  import opened Common
  import opened ReplayCache

  /** The foreign functions the guard relies on, and the configured tolerance. */
  datatype Config = Config(
    skew: real,
    number: string -> Option<real>,
    sha256: string -> string,
    verify: (string, string, string) -> bool)

  /** pubkey is lower-cased, verb is the upper-cased HTTP method; a missing header is the empty string. */
  datatype Request = Request(
    verb: string, url: string, rawBody: string, pubkey: string, timestamp: string, signature: string,
    accountKnown: bool, checkedAt: real, recordedAt: real)

  predicate NoColon(s: string) {
    ':' !in s
  }

  /** A text with a colon is not a number, digests are hexadecimal, and sha256 does not collide. */
  ghost predicate Sane(cfg: Config) {
    && (forall t :: cfg.number(t).Some? ==> NoColon(t))
    && (forall m :: NoColon(cfg.sha256(m)) && cfg.sha256(m) != "")
    && Injective(cfg.sha256)
  }

  predicate HashesBody(verb: string) {
    verb == "POST" || verb == "PATCH" || verb == "PUT"
  }

  predicate Exempt(verb: string) {
    verb == "GET" || verb == "HEAD"
  }

  function BodyHash(cfg: Config, r: Request): string {
    if HashesBody(r.verb) && r.rawBody != "" then cfg.sha256(r.rawBody) else ""
  }

  function Join(verb: string, url: string, timestamp: string, hash: string): string {
    verb + ":" + url + ":" + timestamp + ":" + hash
  }

  function Canonical(cfg: Config, r: Request): string {
    Join(r.verb, r.url, r.timestamp, BodyHash(cfg, r))
  }

  // ----- the canonical message determines its fields

  lemma FirstColon(a: string, b: string, x: string, y: string)
    requires NoColon(a) && NoColon(b) && a + ":" + x == b + ":" + y
    ensures a == b && x == y
  {
    var s := a + ":" + x;
    assert s[|a|] == ':' && s[|b|] == ':';
    assert |a| == |b|;
    assert a == s[..|a|] && b == s[..|b|];
    assert x == s[|a| + 1..] && y == s[|b| + 1..];
  }

  lemma LastColon(a: string, b: string, x: string, y: string)
    requires NoColon(x) && NoColon(y) && a + ":" + x == b + ":" + y
    ensures a == b && x == y
  {
    var s := a + ":" + x;
    assert s[|a|] == ':' && s[|b|] == ':';
    assert |a| == |b|;
    assert a == s[..|a|] && b == s[..|b|];
    assert x == s[|a| + 1..] && y == s[|b| + 1..];
  }

  /** Equal messages have equal parts, although the URL may contain colons. */
  lemma JoinIsInjective(m1: string, u1: string, t1: string, h1: string, m2: string, u2: string, t2: string, h2: string)
    requires NoColon(m1) && NoColon(m2) && NoColon(t1) && NoColon(t2) && NoColon(h1) && NoColon(h2)
    requires Join(m1, u1, t1, h1) == Join(m2, u2, t2, h2)
    ensures m1 == m2 && u1 == u2 && t1 == t2 && h1 == h2
  {
    LastColon(m1 + ":" + u1 + ":" + t1, m2 + ":" + u2 + ":" + t2, h1, h2);
    LastColon(m1 + ":" + u1, m2 + ":" + u2, t1, t2);
    FirstColon(m1, m2, u1, u2);
  }

  /** Two readable requests with one canonical message are the same request, body included where it is hashed. */
  lemma CanonicalIsInjective(cfg: Config, a: Request, b: Request)
    requires Sane(cfg) && NoColon(a.verb) && NoColon(b.verb)
    requires cfg.number(a.timestamp).Some? && cfg.number(b.timestamp).Some?
    requires Canonical(cfg, a) == Canonical(cfg, b)
    ensures a.verb == b.verb && a.url == b.url && a.timestamp == b.timestamp
    ensures HashesBody(a.verb) ==> a.rawBody == b.rawBody
  {
    JoinIsInjective(a.verb, a.url, a.timestamp, BodyHash(cfg, a), b.verb, b.url, b.timestamp, BodyHash(cfg, b));
  }

  // ----- one request

  function Abs(x: real): real {
    if x < 0.0 then -x else x
  }

  predicate WithinSkew(cfg: Config, r: Request) {
    cfg.number(r.timestamp).Some? && Abs(r.checkedAt - cfg.number(r.timestamp).value) <= cfg.skew
  }

  /** Everything the guard checks before the replay cache. */
  predicate Authentic(cfg: Config, r: Request) {
    && r.pubkey != "" && r.timestamp != "" && r.signature != ""
    && WithinSkew(cfg, r)
    && cfg.verify(Canonical(cfg, r), r.signature, r.pubkey)
    && r.accountKnown
  }

  function Expiry(cfg: Config, r: Request): real
    requires cfg.number(r.timestamp).Some?
  {
    cfg.number(r.timestamp).value + cfg.skew
  }

  /** canActivate: whether the request is admitted, and the cache afterwards. */
  function Admit(cfg: Config, c: Cache, r: Request): (bool, Cache) {
    if !Authentic(cfg, r) then (false, c)
    else if Exempt(r.verb) then (true, c)
    else
      var (v, c') := Present(c, r.pubkey, cfg.sha256(Canonical(cfg, r)), Expiry(cfg, r), r.recordedAt);
      (v == Accepted, c')
  }

  // ----- runs, with the log of everything admitted as their history

  datatype State = State(cache: Cache, log: seq<Entry>, clock: real)

  /** An HTTP method has no colon, and the clock does not go back between or within requests. */
  predicate Plausible(clock: real, r: Request) {
    NoColon(r.verb) && clock <= r.recordedAt && r.checkedAt <= r.recordedAt
  }

  /** The last clock reading before request k. */
  function ClockBefore(clock: real, run: seq<Request>, k: nat): real
    requires k <= |run|
  {
    if k == 0 then clock else run[k - 1].recordedAt
  }

  predicate PlausibleRun(clock: real, run: seq<Request>) {
    forall k: nat :: k < |run| ==> Plausible(ClockBefore(clock, run, k), run[k])
  }

  function EntryOf(cfg: Config, r: Request): Entry
    requires cfg.number(r.timestamp).Some?
  {
    Entry(r.pubkey, Canonical(cfg, r), Expiry(cfg, r))
  }

  function Next(cfg: Config, s: State, r: Request): State {
    var (ok, c') := Admit(cfg, s.cache, r);
    State(c', if ok && !Exempt(r.verb) then s.log + [EntryOf(cfg, r)] else s.log, r.recordedAt)
  }

  /** The state that request k of a run meets. */
  function StateAt(cfg: Config, s: State, run: seq<Request>, k: nat): State
    requires k <= |run|
  {
    if k == 0 then s else Next(cfg, StateAt(cfg, s, run, k - 1), run[k - 1])
  }

  predicate Admitted(cfg: Config, s: State, run: seq<Request>, j: nat)
    requires j < |run|
  {
    Admit(cfg, StateAt(cfg, s, run, j).cache, run[j]).0
  }

  /** The cache is coupled to the log, and every log entry was written by a readable request. */
  ghost predicate Inv(cfg: Config, s: State) {
    && Coupled(s.cache, s.log, cfg.sha256, s.clock)
    && forall i :: 0 <= i < |s.log| ==> Written(cfg, s.log[i])
  }

  ghost predicate Written(cfg: Config, e: Entry) {
    exists r: Request :: NoColon(r.verb) && cfg.number(r.timestamp).Some? && e == EntryOf(cfg, r)
  }

  lemma ClockMayAdvance(c: Cache, log: seq<Entry>, sha: string -> string, clock: real, later: real)
    requires Coupled(c, log, sha, clock) && clock <= later
    ensures Coupled(c, log, sha, later)
  {
  }

  lemma NextKeepsInv(cfg: Config, s: State, r: Request)
    requires Sane(cfg) && Inv(cfg, s) && Plausible(s.clock, r)
    ensures Inv(cfg, Next(cfg, s, r)) && s.log <= Next(cfg, s, r).log
    ensures Authentic(cfg, r) && !Exempt(r.verb) ==>
              (Admit(cfg, s.cache, r).0 <==> LogVerdict(s.log, r.pubkey, Canonical(cfg, r), r.recordedAt) == Accepted)
  {
    if Authentic(cfg, r) && !Exempt(r.verb) {
      StepRefinesLog(s.cache, s.log, cfg.sha256, s.clock, r.pubkey, Canonical(cfg, r), Expiry(cfg, r), r.recordedAt);
      assert Written(cfg, EntryOf(cfg, r));
    } else {
      ClockMayAdvance(s.cache, s.log, cfg.sha256, s.clock, r.recordedAt);
    }
  }

  /** The entry for this very message, under this key. */
  ghost predicate SeenBefore(cfg: Config, s: State, r: Request) {
    exists i :: 0 <= i < |s.log| && s.log[i].pubkey == r.pubkey && s.log[i].message == Canonical(cfg, r)
  }

  lemma SeenExpiry(cfg: Config, s: State, r: Request, i: nat)
    requires Sane(cfg) && Inv(cfg, s) && NoColon(r.verb) && cfg.number(r.timestamp).Some?
    requires i < |s.log| && s.log[i].message == Canonical(cfg, r)
    ensures s.log[i].expiry == Expiry(cfg, r)
  {
    assert Written(cfg, s.log[i]);
    var w: Request :| NoColon(w.verb) && cfg.number(w.timestamp).Some? && s.log[i] == EntryOf(cfg, w);
    CanonicalIsInjective(cfg, w, r);
  }

  /**
    Exactly when a repeated message gets through: its window closed between the two clock readings
    and the key's live entries leave room. Inside the window it is always refused.
   */
  lemma RepeatIsAdmittedIff(cfg: Config, s: State, r: Request)
    requires Sane(cfg) && Inv(cfg, s) && Plausible(s.clock, r)
    requires Authentic(cfg, r) && !Exempt(r.verb) && SeenBefore(cfg, s, r)
    ensures Admit(cfg, s.cache, r).0 <==>
              r.recordedAt > Expiry(cfg, r) && |Live(s.log, r.pubkey, r.recordedAt)| < 200
  {
    NextKeepsInv(cfg, s, r);
    forall i | 0 <= i < |s.log| && s.log[i].message == Canonical(cfg, r)
      ensures s.log[i].expiry == Expiry(cfg, r)
    {
      SeenExpiry(cfg, s, r, i);
    }
    RepeatVerdict(s.log, r.pubkey, Canonical(cfg, r), Expiry(cfg, r), r.recordedAt);
  }

  /** The verdict on a message all of whose entries expire together. */
  lemma RepeatVerdict(log: seq<Entry>, pk: string, message: string, expiry: real, now: real)
    requires forall i :: 0 <= i < |log| && log[i].message == message ==> log[i].expiry == expiry
    requires exists i :: 0 <= i < |log| && log[i].pubkey == pk && log[i].message == message
    ensures LogVerdict(log, pk, message, now) == Accepted <==>
              now > expiry && |Live(log, pk, now)| < MAX_PER_PUBKEY
  {
  }

  lemma AdmissionIsRecorded(cfg: Config, s: State, r: Request, again: Request)
    requires Admit(cfg, s.cache, r).0 && !Exempt(r.verb)
    requires again.pubkey == r.pubkey && Canonical(cfg, again) == Canonical(cfg, r)
    ensures SeenBefore(cfg, Next(cfg, s, r), again)
  {
    var t := Next(cfg, s, r);
    assert t.log[|s.log|] == EntryOf(cfg, r);
  }

  // ----- every run

  lemma NextReads(cfg: Config, s: State, r: Request)
    ensures Next(cfg, s, r).clock == r.recordedAt && s.log <= Next(cfg, s, r).log
  {
  }

  /** The state that request k meets: the invariant holds and its clock is the last reading. */
  ghost predicate GoodAt(cfg: Config, clock: real, run: seq<Request>, t: State, k: nat) {
    k <= |run| && Inv(cfg, t) && t.clock == ClockBefore(clock, run, k)
  }

  lemma StepInRun(cfg: Config, clock: real, run: seq<Request>, t: State, k: nat)
    requires Sane(cfg) && k < |run| && PlausibleRun(clock, run) && GoodAt(cfg, clock, run, t, k)
    ensures GoodAt(cfg, clock, run, Next(cfg, t, run[k]), k + 1)
  {
    NextKeepsInv(cfg, t, run[k]);
    NextReads(cfg, t, run[k]);
  }

  /** What every request hands on from state to state holds at each of them. */
  lemma {:induction false} HandedOn(cfg: Config, s: State, run: seq<Request>, k: nat, P: (State, nat) -> bool)
    requires k <= |run| && P(s, 0)
    requires forall t: State, j: nat :: j < |run| && P(t, j) ==> P(Next(cfg, t, run[j]), j + 1)
    ensures P(StateAt(cfg, s, run, k), k)
  {
    if k > 0 {
      HandedOn(cfg, s, run, k - 1, P);
    }
  }

  lemma RunKeepsInv(cfg: Config, s: State, run: seq<Request>, k: nat)
    requires Sane(cfg) && Inv(cfg, s) && PlausibleRun(s.clock, run) && k <= |run|
    ensures Inv(cfg, StateAt(cfg, s, run, k))
    ensures StateAt(cfg, s, run, k).clock == ClockBefore(s.clock, run, k)
  {
    forall t: State, j: nat | j < |run| && GoodAt(cfg, s.clock, run, t, j)
      ensures GoodAt(cfg, s.clock, run, Next(cfg, t, run[j]), j + 1)
    {
      StepInRun(cfg, s.clock, run, t, j);
    }
    HandedOn(cfg, s, run, k, (t: State, j: nat) => GoodAt(cfg, s.clock, run, t, j));
  }

  /**
    In every run, a message of a non-exempt method that is admitted twice for one key was, the
    second time, looked up after its window had closed.
   */
  lemma SecondAdmissionIsLate(cfg: Config, s: State, run: seq<Request>, i: nat, j: nat)
    requires Sane(cfg) && Inv(cfg, s) && PlausibleRun(s.clock, run) && i < j < |run|
    requires !Exempt(run[i].verb) && !Exempt(run[j].verb)
    requires run[i].pubkey == run[j].pubkey && Canonical(cfg, run[i]) == Canonical(cfg, run[j])
    requires Admitted(cfg, s, run, i) && Admitted(cfg, s, run, j)
    ensures cfg.number(run[j].timestamp).Some? && run[j].recordedAt > Expiry(cfg, run[j])
  {
    AdmissionIsRemembered(cfg, s, run, i, j, run[j]);
    RunKeepsInv(cfg, s, run, j);
    var t := StateAt(cfg, s, run, j);
    assert Plausible(t.clock, run[j]);
    AdmittedRepeatIsLate(cfg, t, run[j]);
  }

  lemma AdmittedRepeatIsLate(cfg: Config, s: State, r: Request)
    requires Sane(cfg) && Inv(cfg, s) && Plausible(s.clock, r)
    requires !Exempt(r.verb) && SeenBefore(cfg, s, r) && Admit(cfg, s.cache, r).0
    ensures cfg.number(r.timestamp).Some? && r.recordedAt > Expiry(cfg, r)
  {
    RepeatIsAdmittedIff(cfg, s, r);
  }

  /** What request i left in the log is still there when request j is served. */
  lemma {:induction false} AdmissionIsRemembered(cfg: Config, s: State, run: seq<Request>, i: nat, j: nat,
                                                 again: Request)
    requires i < j <= |run| && !Exempt(run[i].verb) && Admitted(cfg, s, run, i)
    requires again.pubkey == run[i].pubkey && Canonical(cfg, again) == Canonical(cfg, run[i])
    ensures SeenBefore(cfg, StateAt(cfg, s, run, j), again)
  {
    if j == i + 1 {
      SeenRightAfter(cfg, s, run, i, again);
    } else {
      AdmissionIsRemembered(cfg, s, run, i, j - 1, again);
      StillSeen(cfg, StateAt(cfg, s, run, j - 1), run[j - 1], again);
    }
  }

  lemma StillSeen(cfg: Config, t: State, r: Request, again: Request)
    requires SeenBefore(cfg, t, again)
    ensures SeenBefore(cfg, Next(cfg, t, r), again)
  {
    NextReads(cfg, t, r);
    SeenStays(cfg, t, Next(cfg, t, r), again);
  }

  lemma SeenRightAfter(cfg: Config, s: State, run: seq<Request>, i: nat, again: Request)
    requires i < |run| && !Exempt(run[i].verb) && Admitted(cfg, s, run, i)
    requires again.pubkey == run[i].pubkey && Canonical(cfg, again) == Canonical(cfg, run[i])
    ensures SeenBefore(cfg, StateAt(cfg, s, run, i + 1), again)
  {
    AdmissionIsRecorded(cfg, StateAt(cfg, s, run, i), run[i], again);
  }

  lemma SeenStays(cfg: Config, s: State, t: State, r: Request)
    requires s.log <= t.log && SeenBefore(cfg, s, r)
    ensures SeenBefore(cfg, t, r)
  {
  }

  /** The guard that starts with nothing remembered. */
  const START := State(map[], [], 0.0)

  /**
    A signed message of a non-exempt method is admitted at most once per key in every run whose
    requests are looked up while still inside their window, in particular when both checks of a
    request see one clock reading.
   */
  lemma AdmittedAtMostOnce(cfg: Config, run: seq<Request>, i: nat, j: nat)
    requires Sane(cfg) && PlausibleRun(0.0, run) && i < j < |run|
    requires run[j].checkedAt == run[j].recordedAt
             || (cfg.number(run[j].timestamp).Some? && run[j].recordedAt <= Expiry(cfg, run[j]))
    requires !Exempt(run[i].verb) && !Exempt(run[j].verb)
    requires run[i].pubkey == run[j].pubkey && Canonical(cfg, run[i]) == Canonical(cfg, run[j])
    ensures !(Admitted(cfg, START, run, i) && Admitted(cfg, START, run, j))
  {
    if Admitted(cfg, START, run, i) && Admitted(cfg, START, run, j) {
      SecondAdmissionIsLate(cfg, START, run, i, j);
    }
  }

  /** The two readings matter: looked up one unit after its window closed, a repeat is admitted. */
  lemma LateLookupIsAdmitted(cfg: Config, r: Request, late: Request)
    requires Sane(cfg) && cfg.skew >= 0.0 && NoColon(r.verb) && !Exempt(r.verb) && Authentic(cfg, r)
    requires 0.0 <= r.checkedAt == r.recordedAt
    requires late == r.(checkedAt := Expiry(cfg, r), recordedAt := Expiry(cfg, r) + 1.0)
    ensures Admitted(cfg, START, [r, late], 0) && Admitted(cfg, START, [r, late], 1)
  {
    NextKeepsInv(cfg, START, r);
    assert Live(START.log, r.pubkey, r.recordedAt) == {};
    var t := Next(cfg, START, r);
    assert Authentic(cfg, late) && Canonical(cfg, late) == Canonical(cfg, r);
    assert t.log == [EntryOf(cfg, r)];
    assert SeenBefore(cfg, t, late) by { assert t.log[0].pubkey == late.pubkey; }
    assert Live(t.log, late.pubkey, late.recordedAt) == {};
    RepeatIsAdmittedIff(cfg, t, late);
    assert StateAt(cfg, START, [r, late], 1) == Next(cfg, StateAt(cfg, START, [r, late], 0), r);
  }
}
