/** Single use of registration nonces in every interleaving, and the purge that no callback can notice. */
module NonceSafety {
  import opened NameRegistry

  // ----- one nonce, one registration

  ghost predicate Backs(s: State, k1: string) {
    exists i :: 0 <= i < |s.registered| && s.registered[i].k1 == k1
  }

  ghost predicate NonceInv(s: State) {
    && s.nonces.Keys <= s.issued
    && (forall i, j :: 0 <= i < j < |s.registered| ==> s.registered[i].k1 != s.registered[j].k1)
    && (forall i :: 0 <= i < |s.registered| ==>
          s.registered[i].k1 in s.issued
          && (s.registered[i].k1 in s.nonces ==> s.nonces[s.registered[i].k1].usedAt.Some?))
    && (forall k :: k in s.nonces && s.nonces[k].usedAt.Some? ==> Backs(s, k))
    && |s.users| == |s.registered|
  }

  lemma RegistrationKeepsNonces(s: State, req: nat, now: int)
    requires NonceInv(s)
    ensures NonceInv(Next(s, DoRegister(req, now)))
  {
    var t := Next(s, DoRegister(req, now));
    if t.registered != s.registered {
      var k1 := s.callbacks[req].k1;
      assert t.registered == s.registered + [Success(req, k1)];
      forall k | k in t.nonces && t.nonces[k].usedAt.Some?
        ensures Backs(t, k)
      {
        if k == k1 {
          assert t.registered[|s.registered|].k1 == k1;
        } else {
          assert Backs(s, k);
          var i :| 0 <= i < |s.registered| && s.registered[i].k1 == k;
          assert t.registered[i] == s.registered[i];
        }
      }
    }
  }

  predicate TouchesNonces(step: Step) {
    step.DoChallenge? || step.DoRegister? || step.DoPurge?
  }

  /** Every other step leaves nonces, users and the history alone. */
  lemma OtherStepsFrame(s: State, step: Step)
    requires !TouchesNonces(step)
    ensures var t := Next(s, step);
            t.nonces == s.nonces && t.issued == s.issued && t.registered == s.registered && |t.users| == |s.users|
    ensures !Execute(s, step).1.Registered?
  {
  }

  lemma SameHistoryKeepsNonces(s: State, t: State)
    requires NonceInv(s) && t.registered == s.registered && |t.users| == |s.users| && s.issued <= t.issued
    requires t.nonces.Keys <= t.issued
    requires forall k :: k in t.nonces ==>
              (k in s.nonces && t.nonces[k] == s.nonces[k]) || (k !in s.issued && t.nonces[k].usedAt.None?)
    ensures NonceInv(t)
  {
  }

  lemma StepKeepsNonces(s: State, step: Step)
    requires NonceInv(s)
    ensures NonceInv(Next(s, step))
    ensures |Next(s, step).registered| == |s.registered| + if Execute(s, step).1.Registered? then 1 else 0
  {
    if step.DoRegister? {
      RegistrationKeepsNonces(s, step.req, step.now);
    } else {
      if !TouchesNonces(step) { OtherStepsFrame(s, step); }
      SameHistoryKeepsNonces(s, Next(s, step));
    }
  }

  lemma RunKeepsNonces(steps: seq<Step>, k: nat)
    requires k <= |steps|
    ensures NonceInv(StateAt(EMPTY, steps, k))
  {
    forall t, j | 0 <= j < k && NonceInv(t)
      ensures NonceInv(Next(t, steps[j]))
    {
      StepKeepsNonces(t, steps[j]);
    }
    RunInduction(EMPTY, steps, k, t => NonceInv(t));
  }

  predicate Registers(steps: seq<Step>, k: nat)
    requires k < |steps|
  {
    Execute(StateAt(EMPTY, steps, k), steps[k]).1.Registered?
  }

  function Registrations(steps: seq<Step>, k: nat): nat
    requires k <= |steps|
  {
    if k == 0 then 0 else Registrations(steps, k - 1) + if Registers(steps, k - 1) then 1 else 0
  }

  lemma OneMoreRegistration(steps: seq<Step>, k: nat)
    requires 0 < k <= |steps|
    ensures |StateAt(EMPTY, steps, k).registered| ==
              |StateAt(EMPTY, steps, k - 1).registered| + if Registers(steps, k - 1) then 1 else 0
  {
    RunKeepsNonces(steps, k - 1);
    StepKeepsNonces(StateAt(EMPTY, steps, k - 1), steps[k - 1]);
  }

  /**
    In every state of every interleaving each nonce backs at most one successful callback, and the
    successful answers, the users created and the entries of that history are equally many.
   */
  lemma {:induction false} EachNonceBacksOneRegistration(steps: seq<Step>, k: nat)
    requires k <= |steps|
    ensures var s := StateAt(EMPTY, steps, k);
            && Registrations(steps, k) == |s.users| == |s.registered|
            && forall i, j :: 0 <= i < j < |s.registered| ==> s.registered[i].k1 != s.registered[j].k1
  {
    RunKeepsNonces(steps, k);
    if k > 0 {
      EachNonceBacksOneRegistration(steps, k - 1);
      OneMoreRegistration(steps, k);
    }
  }

  /** Without purges a nonce handed out stays on record. */
  lemma IssuedStays(steps: seq<Step>, k: nat)
    requires k <= |steps| && forall i :: 0 <= i < k ==> !steps[i].DoPurge?
    ensures StateAt(EMPTY, steps, k).issued == StateAt(EMPTY, steps, k).nonces.Keys
  {
    forall t: State, j | 0 <= j < k && t.issued == t.nonces.Keys
      ensures Next(t, steps[j]).issued == Next(t, steps[j]).nonces.Keys
    {
      StepKeepsIssued(t, steps[j]);
    }
    RunInduction(EMPTY, steps, k, (t: State) => t.issued == t.nonces.Keys);
  }

  lemma StepKeepsIssued(s: State, step: Step)
    requires s.issued == s.nonces.Keys && !step.DoPurge?
    ensures Next(s, step).issued == Next(s, step).nonces.Keys
  {
    match step
    case DoChallenge(_, _) =>
    case DoRegister(_, _) =>
    case _ => OtherStepsFrame(s, step);
  }

  /** While nothing is purged, the consumed nonces are exactly those that back a registration. */
  lemma ConsumedIsRegistered(steps: seq<Step>, k1: string)
    requires forall i :: 0 <= i < |steps| ==> !steps[i].DoPurge?
    ensures var s := Run(EMPTY, steps);
            Backs(s, k1) <==> k1 in s.nonces && s.nonces[k1].usedAt.Some?
  {
    RunKeepsNonces(steps, |steps|);
    IssuedStays(steps, |steps|);
  }

  /** A failed callback consumes nothing and creates nothing. */
  lemma FailureLeavesNoTrace(s: State, step: Step)
    requires Execute(s, step).1.CallbackFailed?
    ensures Next(s, step) == s.(callbacks := Next(s, step).callbacks)
    ensures Next(s, step).callbacks == s.callbacks - {Execute(s, step).1.req}
  {
  }

  // ----- purging

  predicate Timed(step: Step) {
    step.DoChallenge? || step.DoStart? || step.DoRegister? || step.DoPurge?
  }

  /**
    A purge run reads the clock once and keeps that reading for all its statements, so callbacks
    between them may read a later one; and the clock of the server that purges may run ahead. All
    that is asked is that no request reads a clock more than the grace period behind a purge before it.
   */
  predicate WithinGrace(steps: seq<Step>) {
    forall i, j :: 0 <= i < j < |steps| && steps[i].DoPurge? && Timed(steps[j]) && !steps[j].DoPurge? ==>
      steps[i].now - PURGE_GRACE_MS <= steps[j].now
  }

  /** The first k steps without their purges. */
  function Kept(steps: seq<Step>, k: nat): seq<Step>
    requires k <= |steps|
  {
    if k == 0 then []
    else Kept(steps, k - 1) + if steps[k - 1].DoPurge? then [] else [steps[k - 1]]
  }

  /** a is b minus nonces that had expired by some earlier purge. */
  ghost predicate Purged(a: State, b: State, steps: seq<Step>, k: nat)
    requires k <= |steps|
  {
    && a == b.(nonces := a.nonces)
    && (forall n :: n in a.nonces ==> n in b.nonces && b.nonces[n] == a.nonces[n])
    && (forall n :: n in b.nonces && n !in a.nonces ==> ExpiredBy(b.nonces[n], steps, k))
    && b.nonces.Keys <= b.issued
  }

  ghost predicate ExpiredBy(n: Nonce, steps: seq<Step>, k: nat)
    requires k <= |steps|
  {
    exists i :: 0 <= i < k && steps[i].DoPurge? && n.expiresAt < steps[i].now - PURGE_GRACE_MS
  }

  lemma ExpiryLasts(n: Nonce, steps: seq<Step>, k: nat)
    requires k < |steps| && WithinGrace(steps) && ExpiredBy(n, steps, k)
    ensures ExpiredBy(n, steps, k + 1) && (Timed(steps[k]) && !steps[k].DoPurge? ==> n.expiresAt < steps[k].now)
  {
  }

  lemma PurgeKeepsPurged(a: State, b: State, steps: seq<Step>, k: nat)
    requires k < |steps| && WithinGrace(steps) && Purged(a, b, steps, k) && steps[k].DoPurge?
    ensures Purged(Next(a, steps[k]), b, steps, k + 1)
  {
    var a' := Next(a, steps[k]);
    forall n | n in b.nonces && n !in a'.nonces
      ensures ExpiredBy(b.nonces[n], steps, k + 1)
    {
      if n !in a.nonces { ExpiryLasts(b.nonces[n], steps, k); }
    }
  }

  lemma LoadIgnoresNonces(s: State, req: nat, user: nat, username: string, reserved: bool, nonces: map<string, Nonce>)
    ensures LoadChange(s.(nonces := nonces), req, user, username, reserved)
            == (LoadChange(s, req, user, username, reserved).0.(nonces := nonces),
                LoadChange(s, req, user, username, reserved).1)
  {
  }

  lemma CommitIgnoresNonces(s: State, req: nat, nonces: map<string, Nonce>)
    ensures CommitChange(s.(nonces := nonces), req) ==
              (CommitChange(s, req).0.(nonces := nonces), CommitChange(s, req).1)
  {
  }

  /** A step without a clock reading does not look at the nonces. */
  lemma UntimedIgnoresNonces(s: State, step: Step, nonces: map<string, Nonce>)
    requires !Timed(step)
    ensures Execute(s.(nonces := nonces), step).0 == Execute(s, step).0.(nonces := nonces)
    ensures Execute(s.(nonces := nonces), step).1 == Execute(s, step).1
  {
    match step
    case DoCheckKey(_, _) =>
    case DoCheckName(_) =>
    case DoGrant(_, _) =>
    case DoLoad(req, user, username, reserved) => LoadIgnoresNonces(s, req, user, username, reserved, nonces);
    case DoCheckTaken(_) =>
    case DoCommit(req) => CommitIgnoresNonces(s, req, nonces);
    case DoConverge(_) =>
  }

  /** The purged nonces had expired when this step reads the clock. */
  ghost predicate ExpiredNow(a: State, b: State, steps: seq<Step>, k: nat)
    requires k < |steps|
  {
    && Purged(a, b, steps, k) && Timed(steps[k])
    && (forall n :: n in b.nonces && n !in a.nonces ==>
          ExpiredBy(b.nonces[n], steps, k + 1) && b.nonces[n].expiresAt < steps[k].now)
  }

  lemma ChallengeKeepsPurged(a: State, b: State, steps: seq<Step>, k: nat)
    requires k < |steps| && steps[k].DoChallenge? && ExpiredNow(a, b, steps, k)
    ensures Purged(Next(a, steps[k]), Next(b, steps[k]), steps, k + 1)
    ensures Execute(a, steps[k]).1 == Execute(b, steps[k]).1
  {
  }

  lemma StartKeepsPurged(a: State, b: State, steps: seq<Step>, k: nat)
    requires k < |steps| && steps[k].DoStart? && ExpiredNow(a, b, steps, k)
    ensures Purged(Next(a, steps[k]), Next(b, steps[k]), steps, k + 1)
    ensures Execute(a, steps[k]).1 == Execute(b, steps[k]).1
  {
  }

  lemma RegisterKeepsPurged(a: State, b: State, steps: seq<Step>, k: nat)
    requires k < |steps| && steps[k].DoRegister? && ExpiredNow(a, b, steps, k)
    ensures Purged(Next(a, steps[k]), Next(b, steps[k]), steps, k + 1)
    ensures Execute(a, steps[k]).1 == Execute(b, steps[k]).1
  {
    var req, now := steps[k].req, steps[k].now;
    if req in b.callbacks {
      var k1 := b.callbacks[req].k1;
      assert Consumable(a, k1, now) <==> Consumable(b, k1, now);
    }
  }

  lemma TimedKeepsPurged(a: State, b: State, steps: seq<Step>, k: nat)
    requires k < |steps| && !steps[k].DoPurge? && ExpiredNow(a, b, steps, k)
    ensures Purged(Next(a, steps[k]), Next(b, steps[k]), steps, k + 1)
    ensures Execute(a, steps[k]).1 == Execute(b, steps[k]).1
  {
    if steps[k].DoChallenge? {
      ChallengeKeepsPurged(a, b, steps, k);
    } else if steps[k].DoStart? {
      StartKeepsPurged(a, b, steps, k);
    } else {
      RegisterKeepsPurged(a, b, steps, k);
    }
  }

  /** A nonce that a purge took away could no longer be read or consumed anyway. */
  lemma StepKeepsPurged(a: State, b: State, steps: seq<Step>, k: nat)
    requires k < |steps| && WithinGrace(steps) && Purged(a, b, steps, k) && !steps[k].DoPurge?
    ensures Purged(Next(a, steps[k]), Next(b, steps[k]), steps, k + 1)
    ensures Execute(a, steps[k]).1 == Execute(b, steps[k]).1
  {
    forall n | n in b.nonces && n !in a.nonces
      ensures ExpiredBy(b.nonces[n], steps, k + 1) && (Timed(steps[k]) ==> b.nonces[n].expiresAt < steps[k].now)
    {
      ExpiryLasts(b.nonces[n], steps, k);
    }
    if Timed(steps[k]) {
      TimedKeepsPurged(a, b, steps, k);
    } else {
      UntimedIgnoresNonces(b, steps[k], a.nonces);
      OtherStepsFrame(b, steps[k]);
    }
  }

  lemma {:induction false} PrefixDecides(s: State, a: seq<Step>, b: seq<Step>, k: nat)
    requires a <= b && k <= |a|
    ensures StateAt(s, a, k) == StateAt(s, b, k)
  {
    if k > 0 {
      PrefixDecides(s, a, b, k - 1);
      assert a[k - 1] == b[k - 1];
    }
  }

  lemma RunAppends(s: State, steps: seq<Step>, step: Step)
    ensures Run(s, steps + [step]) == Next(Run(s, steps), step)
  {
    PrefixDecides(s, steps, steps + [step], |steps|);
  }

  lemma ExtendPurged(steps: seq<Step>, k: nat)
    requires k < |steps| && WithinGrace(steps)
    requires Purged(StateAt(EMPTY, steps, k), Run(EMPTY, Kept(steps, k)), steps, k)
    ensures Purged(StateAt(EMPTY, steps, k + 1), Run(EMPTY, Kept(steps, k + 1)), steps, k + 1)
  {
    var a, b, step := StateAt(EMPTY, steps, k), Run(EMPTY, Kept(steps, k)), steps[k];
    assert StateAt(EMPTY, steps, k + 1) == Next(a, step);
    if step.DoPurge? {
      assert Kept(steps, k + 1) == Kept(steps, k);
      PurgeKeepsPurged(a, b, steps, k);
    } else {
      RunAppends(EMPTY, Kept(steps, k), step);
      StepKeepsPurged(a, b, steps, k);
    }
  }

  lemma {:induction false} PurgedThroughout(steps: seq<Step>, k: nat)
    requires k <= |steps| && WithinGrace(steps)
    ensures Purged(StateAt(EMPTY, steps, k), Run(EMPTY, Kept(steps, k)), steps, k)
  {
    if k > 0 {
      PurgedThroughout(steps, k - 1);
      ExtendPurged(steps, k - 1);
    }
  }

  /**
    Purge statements inserted anywhere in a run are invisible: the same callbacks succeed in the
    same order, with the same users and names, as in the run without them.
   */
  lemma PurgesAreInvisible(steps: seq<Step>)
    requires WithinGrace(steps)
    ensures var a, b := Run(EMPTY, steps), Run(EMPTY, Kept(steps, |steps|));
            && a.registered == b.registered && a.users == b.users && a.rows == b.rows
            && a.changes == b.changes && a.callbacks == b.callbacks
  {
    PurgedThroughout(steps, |steps|);
  }
}
