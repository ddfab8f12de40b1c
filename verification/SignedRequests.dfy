/** What an admission says about the request: who signed it, over what, and when. */
module SignedRequests {
  import opened ReplayCache
  import opened SignatureGuard

  /** The text the key has to have signed: method, URL, timestamp and body hash, joined by colons. */
  function SignedText(cfg: Config, r: Request): string {
    r.verb + ":" + r.url + ":" + r.timestamp + ":" +
    if (r.verb == "POST" || r.verb == "PATCH" || r.verb == "PUT") && |r.rawBody| > 0 then cfg.sha256(r.rawBody) else ""
  }

  /** The timestamp is readable, and the first clock reading lies within the tolerance on both sides of it. */
  predicate OnTime(cfg: Config, r: Request) {
    && cfg.number(r.timestamp).Some?
    && var signedAt := cfg.number(r.timestamp).value;
      signedAt - cfg.skew <= r.checkedAt && r.checkedAt <= signedAt + cfg.skew
  }

  /** All three headers are there, the account is known, and its key signed this request in time. */
  predicate Genuine(cfg: Config, r: Request) {
    && |r.pubkey| > 0 && |r.timestamp| > 0 && |r.signature| > 0
    && r.accountKnown && OnTime(cfg, r)
    && cfg.verify(SignedText(cfg, r), r.signature, r.pubkey)
  }

  lemma TextIsCanonical(cfg: Config, r: Request)
    ensures Canonical(cfg, r) == SignedText(cfg, r)
  {
  }

  /** A request that may be repeated: a read. */
  predicate Read(r: Request) {
    r.verb == "GET" || r.verb == "HEAD"
  }

  /**
    In every state of the cache an admitted request is genuine, a read is admitted exactly when it is
    genuine, and neither a read nor a request that is not genuine touches the cache.
   */
  lemma AdmissionIsGenuine(cfg: Config, c: Cache, r: Request)
    ensures Admit(cfg, c, r).0 ==> Genuine(cfg, r)
    ensures Read(r) ==> (Admit(cfg, c, r).0 <==> Genuine(cfg, r))
    ensures Read(r) || !Genuine(cfg, r) ==> Admit(cfg, c, r).1 == c
  {
    TextIsCanonical(cfg, r);
  }

  /** The log entries of this key whose window is still open at the look-up. */
  ghost predicate OpenEntry(s: State, r: Request, i: nat) {
    i < |s.log| && s.log[i].pubkey == r.pubkey && s.log[i].expiry >= r.recordedAt
  }

  /**
    A request that is not a read is admitted exactly when it is genuine, no open entry of its key has
    its text, and fewer than two hundred entries of its key are open.
   */
  lemma WriteIsAdmittedIff(cfg: Config, s: State, r: Request)
    requires Sane(cfg) && SignatureGuard.Inv(cfg, s) && Plausible(s.clock, r) && !Read(r)
    ensures Admit(cfg, s.cache, r).0 <==>
              && Genuine(cfg, r)
              && (forall i: nat :: OpenEntry(s, r, i) ==> s.log[i].message != SignedText(cfg, r))
              && |set i: nat | i < |s.log| && OpenEntry(s, r, i)| < 200
  {
    TextIsCanonical(cfg, r);
    AdmissionIsGenuine(cfg, s.cache, r);
    if Genuine(cfg, r) {
      GenuineIsAuthentic(cfg, r);
      NextKeepsInv(cfg, s, r);
      LogAccepts(s, r, SignedText(cfg, r));
    }
  }

  lemma GenuineIsAuthentic(cfg: Config, r: Request)
    requires Genuine(cfg, r)
    ensures Authentic(cfg, r)
  {
    TextIsCanonical(cfg, r);
  }

  lemma LogAccepts(s: State, r: Request, text: string)
    ensures LogVerdict(s.log, r.pubkey, text, r.recordedAt) == Accepted <==>
              && (forall i: nat :: OpenEntry(s, r, i) ==> s.log[i].message != text)
              && |set i: nat | i < |s.log| && OpenEntry(s, r, i)| < 200
  {
    assert (set i: nat | i < |s.log| && OpenEntry(s, r, i)) == Live(s.log, r.pubkey, r.recordedAt);
    assert forall i: nat :: OpenEntry(s, r, i) <==> i in Live(s.log, r.pubkey, r.recordedAt);
  }

  /** The entry is what this request, genuine and no read, leaves in the log. */
  predicate EntryFrom(cfg: Config, r: Request, e: Entry) {
    && Genuine(cfg, r) && !Read(r)
    && e.pubkey == r.pubkey && e.message == SignedText(cfg, r)
    && e.expiry == cfg.number(r.timestamp).value + cfg.skew
  }

  ghost predicate LogFrom(cfg: Config, run: seq<Request>, t: State, k: nat) {
    k <= |run| && forall i :: 0 <= i < |t.log| ==> exists j :: 0 <= j < k && EntryFrom(cfg, run[j], t.log[i])
  }

  lemma NextIsFrom(cfg: Config, run: seq<Request>, t: State, k: nat)
    requires k < |run| && LogFrom(cfg, run, t, k)
    ensures LogFrom(cfg, run, Next(cfg, t, run[k]), k + 1)
  {
    var u := Next(cfg, t, run[k]);
    AdmissionIsGenuine(cfg, t.cache, run[k]);
    TextIsCanonical(cfg, run[k]);
    if u.log != t.log {
      assert EntryFrom(cfg, run[k], u.log[|t.log|]);
    }
  }

  /** In every run from a fresh guard each entry of the log was left by an earlier genuine request. */
  lemma LogIsGenuine(cfg: Config, run: seq<Request>, k: nat, i: nat)
    requires k <= |run| && i < |StateAt(cfg, START, run, k).log|
    ensures exists j :: 0 <= j < k && EntryFrom(cfg, run[j], StateAt(cfg, START, run, k).log[i])
  {
    forall t: State, j: nat | j < |run| && LogFrom(cfg, run, t, j)
      ensures LogFrom(cfg, run, Next(cfg, t, run[j]), j + 1)
    {
      NextIsFrom(cfg, run, t, j);
    }
    HandedOn(cfg, START, run, k, (t: State, j: nat) => LogFrom(cfg, run, t, j));
  }
}
