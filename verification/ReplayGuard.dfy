/** The guard as it runs: the map of maps is a field, and entries are deleted in loops over its keys. */
module ReplayGuard {
  import opened ReplayCache
  import opened SignatureGuard
  import opened SignedRequests

  /** The keys still to do are as before, the others are swept. */
  ghost predicate PartlySwept(before: Cache, after: Cache, todo: set<string>, now: real) {
    && todo <= before.Keys
    && (forall pk :: pk in after <==> pk in before && (pk in todo || Prune(before[pk], now) != map[]))
    && (forall pk :: pk in after ==> after[pk] == if pk in todo then before[pk] else Prune(before[pk], now))
  }

  lemma SweepOne(before: Cache, after: Cache, todo: set<string>, now: real, pk: string)
    requires PartlySwept(before, after, todo, now) && pk in todo
    ensures var pruned := Prune(after[pk], now);
            var next := if |pruned| == 0 then after[pk := pruned] - {pk} else after[pk := pruned];
            PartlySwept(before, next, todo - {pk}, now)
  {
    assert |Prune(before[pk], now)| == 0 <==> Prune(before[pk], now) == map[];
  }

  lemma SweptAll(before: Cache, after: Cache, now: real)
    requires PartlySwept(before, after, {}, now)
    ensures after == Sweep(before, now)
  {
  }

  /** Admission, case by case. */
  lemma AdmitCases(cfg: Config, c: Cache, r: Request)
    ensures !Authentic(cfg, r) ==> Admit(cfg, c, r) == (false, c)
    ensures Authentic(cfg, r) && Exempt(r.verb) ==> Admit(cfg, c, r) == (true, c)
    ensures Authentic(cfg, r) && !Exempt(r.verb) ==>
              var p := Present(c, r.pubkey, cfg.sha256(Canonical(cfg, r)), Expiry(cfg, r), r.recordedAt);
              Admit(cfg, c, r) == (p.0 == Accepted, p.1)
  {
  }

  class Guard {
    const cfg: Config
    var seen: Cache

    constructor (cfg: Config)
      ensures this.cfg == cfg && seen == map[]
    {
      this.cfg := cfg;
      seen := map[];
    }

    /** Deletes the expired entries of one bucket. */
    method PruneBucket(bucket: Bucket, now: real) returns (pruned: Bucket)
      ensures pruned == Prune(bucket, now)
    {
      pruned := bucket;
      var todo := bucket.Keys;
      while todo != {}
        invariant todo <= bucket.Keys
        invariant forall k :: k in pruned <==> k in bucket && (k in todo || bucket[k] >= now)
        invariant forall k :: k in pruned ==> pruned[k] == bucket[k]
        decreases |todo|
      {
        var k :| k in todo;
        todo := todo - {k};
        if bucket[k] < now {
          pruned := pruned - {k};
        }
      }
    }

    /** Every key keeps its live entries, and a key without any is forgotten. */
    method SweepSeenSignatures(now: real)
      modifies this`seen
      ensures seen == Sweep(old(seen), now)
    {
      var todo := seen.Keys;
      while todo != {}
        invariant PartlySwept(old(seen), seen, todo, now)
        decreases |todo|
      {
        var pk :| pk in todo;
        var pruned := PruneBucket(seen[pk], now);
        SweepOne(old(seen), seen, todo, now, pk);
        seen := seen[pk := pruned];
        if |pruned| == 0 {
          seen := seen - {pk};
        }
        todo := todo - {pk};
      }
      SweptAll(old(seen), seen, now);
    }

    method RejectReplay(pubkey: string, message: string, signedAt: real, now: real) returns (verdict: Verdict)
      modifies this`seen
      ensures verdict == Present(old(seen), pubkey, cfg.sha256(message), signedAt + cfg.skew, now).0
      ensures seen == Present(old(seen), pubkey, cfg.sha256(message), signedAt + cfg.skew, now).1
    {
      if |seen| > SWEEP_THRESHOLD {
        SweepSeenSignatures(now);
      }
      if pubkey in seen {
        var pruned := PruneBucket(seen[pubkey], now);
        seen := seen[pubkey := pruned];
      } else {
        seen := seen[pubkey := map[]];
      }
      assert seen == Prepare(old(seen), pubkey, now);
      var key := cfg.sha256(message);
      if key in seen[pubkey] {
        return Replayed;
      }
      if |seen[pubkey]| >= MAX_PER_PUBKEY {
        return Full;
      }
      seen := seen[pubkey := seen[pubkey][key := signedAt + cfg.skew]];
      return Accepted;
    }

    /** Headers, skew, signature and account: everything before the cache. */
    method CheckRequest(r: Request) returns (ok: bool)
      ensures ok == Authentic(cfg, r)
    {
      if r.pubkey == "" || r.timestamp == "" || r.signature == "" {
        return false;
      }
      var ts := cfg.number(r.timestamp);
      if ts.None? || Abs(r.checkedAt - ts.value) > cfg.skew {
        return false;
      }
      if !cfg.verify(Canonical(cfg, r), r.signature, r.pubkey) {
        return false;
      }
      return r.accountKnown;
    }

    /** The cache's part in the admission of an authentic request. */
    method PresentRequest(r: Request) returns (accepted: bool)
      requires Authentic(cfg, r)
      modifies this`seen
      ensures var p := Present(old(seen), r.pubkey, cfg.sha256(Canonical(cfg, r)), Expiry(cfg, r), r.recordedAt);
              accepted == (p.0 == Accepted) && seen == p.1
    {
      var verdict := RejectReplay(r.pubkey, Canonical(cfg, r), cfg.number(r.timestamp).value, r.recordedAt);
      accepted := verdict == Accepted;
    }

    method CanActivate(r: Request) returns (admitted: bool)
      modifies this`seen
      ensures admitted == Admit(cfg, old(seen), r).0 && seen == Admit(cfg, old(seen), r).1
      ensures admitted ==> Genuine(cfg, r)
      ensures Read(r) ==> (admitted <==> Genuine(cfg, r))
      ensures Read(r) || !Genuine(cfg, r) ==> seen == old(seen)
    {
      AdmitCases(cfg, seen, r);
      AdmissionIsGenuine(cfg, seen, r);
      var ok := CheckRequest(r);
      if !ok {
        return false;
      }
      if Exempt(r.verb) {
        return true;
      }
      admitted := PresentRequest(r);
    }
  }
}
