/**
  Where every name comes from, in every interleaving: a challenge, a signed callback and its
  registration inside five minutes, or a change that was loaded while the name was not reserved.
 */
module NameOrigins {
  import opened NameRegistry
  import opened NameRegistryInvariant
  import opened NameChanges
  import opened NonceSafety
  import opened KeyForms

  // ----- new names of a change

  /** Request req is on its way to give this account a name it did not own. */
  predicate Claiming(s: State, req: nat, user: nat, username: string) {
    req in s.changes && s.changes[req].userId == user && s.changes[req].username == username
    && s.changes[req].owned.None?
  }

  /** Only a load that found the name not reserved starts a claim. */
  lemma ClaimStarts(s: State, step: Step, req: nat, user: nat, username: string)
    requires Claiming(Next(s, step), req, user, username) && !Claiming(s, req, user, username)
    ensures step == DoLoad(req, user, username, false)
  {
    match step
    case DoChallenge(_, _) =>
    case DoStart(_, _, _, _, _, _) =>
    case DoCheckKey(_, _) =>
    case DoCheckName(_) =>
    case DoRegister(_, _) =>
    case DoPurge(_, _) =>
    case DoLoad(_, _, _, _) =>
    case DoCheckTaken(_) =>
    case DoCommit(_) =>
    case DoConverge(_) =>
    case DoGrant(_, _) =>
  }

  /** The claim was loaded at step b, its name not reserved, and has been in flight up to state k. */
  ghost predicate ClaimedSince(states: seq<State>, steps: seq<Step>, b: nat, k: nat, req: nat, user: nat,
                               username: string) {
    && b < k < |states| && b < |steps| && steps[b] == DoLoad(req, user, username, false)
    && forall m: nat :: b < m <= k ==> Claiming(states[m], req, user, username)
  }

  lemma {:induction false} ClaimOf(states: seq<State>, steps: seq<Step>, k: nat, req: nat, user: nat,
                                   username: string) returns (b: nat)
    requires IsRun(states, steps) && k < |states| && Claiming(states[k], req, user, username)
    ensures ClaimedSince(states, steps, b, k, req, user, username)
  {
    assert Follows(states, steps, k - 1);
    if Claiming(states[k - 1], req, user, username) {
      b := ClaimOf(states, steps, k - 1, req, user, username);
    } else {
      ClaimStarts(states[k - 1], steps[k - 1], req, user, username);
      b := k - 1;
    }
  }

  lemma MovedWasClaiming(s: State, step: Step)
    requires Execute(s, step).1.Moved? && !Execute(s, step).1.switchedBack
    ensures var reply := Execute(s, step).1;
            reply.req in s.changes && Claiming(s, reply.req, s.changes[reply.req].userId, reply.username)
  {
  }

  /** In every run, whoever is told of a new name asked for it when it was not reserved. */
  lemma NewNameWasNotReserved(steps: seq<Step>, k: nat)
    requires k < |steps| && ReplyAt(steps, k).Moved? && !ReplyAt(steps, k).switchedBack
    ensures exists b: nat, user: nat ::
              ClaimedSince(States(steps), steps, b, k, ReplyAt(steps, k).req, user, ReplyAt(steps, k).username)
  {
    var s, reply := StateAt(EMPTY, steps, k), ReplyAt(steps, k);
    MovedWasClaiming(s, steps[k]);
    StatesAreARun(steps);
    var b := ClaimOf(States(steps), steps, k, reply.req, s.changes[reply.req].userId, reply.username);
  }

  // ----- callbacks and their nonces

  /** Callback req is on its way to register this name for this key with this nonce. */
  predicate Registering(s: State, req: nat, k1: string, key: string, username: string) {
    req in s.callbacks && s.callbacks[req].k1 == k1 && s.callbacks[req].key == key
    && s.callbacks[req].username == username
  }

  /** Only a callback that is well formed, signed and not reserved starts, and only while its nonce is on record. */
  lemma CallbackStarts(s: State, step: Step, req: nat, k1: string, key: string, username: string)
    requires Registering(Next(s, step), req, k1, key, username) && !Registering(s, req, k1, key, username)
    ensures step.DoStart? && step == DoStart(req, k1, key, username, true, step.now) && k1 in s.nonces
  {
    match step
    case DoChallenge(_, _) =>
    case DoStart(_, _, _, _, _, _) =>
    case DoCheckKey(_, _) =>
    case DoCheckName(_) =>
    case DoRegister(_, _) =>
    case DoPurge(_, _) =>
    case DoLoad(_, _, _, _) =>
    case DoCheckTaken(_) =>
    case DoCommit(_) =>
    case DoConverge(_) =>
    case DoGrant(_, _) =>
  }

  ghost predicate StartedAt(states: seq<State>, steps: seq<Step>, b: nat, k: nat, req: nat, k1: string, key: string,
                            username: string) {
    && b < k < |states| && b < |steps| && k1 in states[b].nonces
    && steps[b].DoStart? && steps[b] == DoStart(req, k1, key, username, true, steps[b].now)
  }

  lemma {:induction false} StartOf(states: seq<State>, steps: seq<Step>, k: nat, req: nat, k1: string, key: string,
                                   username: string) returns (b: nat)
    requires IsRun(states, steps) && k < |states| && Registering(states[k], req, k1, key, username)
    ensures StartedAt(states, steps, b, k, req, k1, key, username)
  {
    assert Follows(states, steps, k - 1);
    if Registering(states[k - 1], req, k1, key, username) {
      b := StartOf(states, steps, k - 1, req, k1, key, username);
    } else {
      CallbackStarts(states[k - 1], steps[k - 1], req, k1, key, username);
      b := k - 1;
    }
  }

  predicate OnRecord(s: State, k1: string, end: int) {
    k1 in s.nonces && s.nonces[k1].expiresAt == end
  }

  /** Only a challenge puts a nonce on record, one never handed out before, and gives it five minutes. */
  lemma NonceStarts(s: State, step: Step, k1: string, end: int)
    requires OnRecord(Next(s, step), k1, end) && !OnRecord(s, k1, end)
    ensures step == DoChallenge(k1, end - 300_000) && k1 !in s.issued
  {
    if !TouchesNonces(step) { OtherStepsFrame(s, step); }
  }

  ghost predicate ChallengedAt(states: seq<State>, steps: seq<Step>, a: nat, k: nat, k1: string, end: int) {
    a < k < |states| && a < |steps| && steps[a] == DoChallenge(k1, end - 300_000) && k1 !in states[a].issued
  }

  lemma {:induction false} ChallengeOf(states: seq<State>, steps: seq<Step>, k: nat, k1: string,
                                       end: int) returns (a: nat)
    requires IsRun(states, steps) && k < |states| && OnRecord(states[k], k1, end)
    ensures ChallengedAt(states, steps, a, k, k1, end)
  {
    assert Follows(states, steps, k - 1);
    if OnRecord(states[k - 1], k1, end) {
      a := ChallengeOf(states, steps, k - 1, k1, end);
    } else {
      NonceStarts(states[k - 1], steps[k - 1], k1, end);
      a := k - 1;
    }
  }

  lemma IssuedGrows(s: State, step: Step)
    ensures s.issued <= Next(s, step).issued
  {
    if !TouchesNonces(step) { OtherStepsFrame(s, step); }
  }

  lemma {:induction false} StaysIssued(states: seq<State>, steps: seq<Step>, b: nat, k: nat)
    requires IsRun(states, steps) && b <= k < |states|
    ensures states[b].issued <= states[k].issued
  {
    if b < k {
      StaysIssued(states, steps, b, k - 1);
      assert Follows(states, steps, k - 1);
      IssuedGrows(states[k - 1], steps[k - 1]);
    }
  }

  lemma {:induction false} NoncesInRun(states: seq<State>, steps: seq<Step>, k: nat)
    requires IsRun(states, steps) && k < |states|
    ensures NonceInv(states[k])
  {
    if k > 0 {
      NoncesInRun(states, steps, k - 1);
      assert Follows(states, steps, k - 1);
      StepKeepsNonces(states[k - 1], steps[k - 1]);
    }
  }

  /** The challenge came before the callback that answers it. */
  lemma ChallengeComesFirst(states: seq<State>, steps: seq<Step>, a: nat, b: nat, k: nat, k1: string, end: int)
    requires IsRun(states, steps) && ChallengedAt(states, steps, a, k, k1, end)
    requires b < |states| && k1 in states[b].nonces
    ensures a < b
  {
    NoncesInRun(states, steps, b);
    if b <= a { StaysIssued(states, steps, b, a); }
  }

  // ----- every row

  /** The row was registered at step c: challenge, signed callback and registration, inside five minutes. */
  ghost predicate RegisteredBy(steps: seq<Step>, row: Row, a: nat, b: nat, c: nat, k1: string, issued: int) {
    && a < b < c < |steps| && steps[a] == DoChallenge(k1, issued)
    && steps[b].DoStart? && steps[b].valid && steps[b].k1 == k1
    && steps[b].key == row.pubkey && steps[b].username == row.username
    && steps[c].DoRegister? && steps[c].req == steps[b].req && steps[c].now < issued + 300_000
  }

  /** The row was created at step c by a change of its account that found its name not reserved. */
  ghost predicate ClaimedBy(steps: seq<Step>, row: Row, b: nat, c: nat, req: nat) {
    b < c < |steps| && steps[b] == DoLoad(req, row.userId, row.username, false) && steps[c] == DoCommit(req)
  }

  ghost predicate HasOrigin(steps: seq<Step>, row: Row) {
    || (exists a: nat, b: nat, c: nat, k1: string, issued: int :: RegisteredBy(steps, row, a, b, c, k1, issued))
    || (exists b: nat, c: nat, req: nat :: ClaimedBy(steps, row, b, c, req))
  }

  /** What a step that adds a row was about. */
  lemma NewRow(s: State, step: Step, i: nat)
    requires Inv(s) && |s.rows| <= i < |Next(s, step).rows|
    ensures var row := Next(s, step).rows[i];
            || (step.DoRegister? && step.req in s.callbacks && Consumable(s, s.callbacks[step.req].k1, step.now)
                && Registering(s, step.req, s.callbacks[step.req].k1, row.pubkey, row.username))
            || (step.DoCommit? && Claiming(s, step.req, row.userId, row.username))
  {
    if step.DoCommit? {
      if step.req in s.changes { assert GoodChange(s.rows, s.changes[step.req]); }
    } else if !step.DoRegister? {
      OtherStepsAreQuiet(s, step);
    }
  }

  lemma NewRowHasOrigin(states: seq<State>, steps: seq<Step>, k: nat, i: nat)
    requires IsRun(states, steps) && k < |steps| && |states[k].rows| <= i < |states[k + 1].rows|
    ensures HasOrigin(steps, states[k + 1].rows[i])
  {
    var s, step, row := states[k], steps[k], states[k + 1].rows[i];
    assert Follows(states, steps, k);
    InvInRun(states, steps, k);
    NewRow(s, step, i);
    if step.DoRegister? {
      var k1 := s.callbacks[step.req].k1;
      var b := StartOf(states, steps, k, step.req, k1, row.pubkey, row.username);
      var a := ChallengeOf(states, steps, k, k1, s.nonces[k1].expiresAt);
      ChallengeComesFirst(states, steps, a, b, k, k1, s.nonces[k1].expiresAt);
      assert RegisteredBy(steps, row, a, b, k, k1, s.nonces[k1].expiresAt - 300_000);
    } else {
      var b := ClaimOf(states, steps, k, step.req, row.userId, row.username);
      assert ClaimedBy(steps, row, b, k, step.req);
    }
  }

  lemma {:induction false} RowsHaveOrigins(states: seq<State>, steps: seq<Step>, k: nat, i: nat)
    requires IsRun(states, steps) && k < |states| && i < |states[k].rows|
    ensures HasOrigin(steps, states[k].rows[i])
  {
    assert Follows(states, steps, k - 1);
    if i < |states[k - 1].rows| {
      RowsHaveOrigins(states, steps, k - 1, i);
      InvInRun(states, steps, k - 1);
      StepKeepsInv(states[k - 1], steps[k - 1]);
      SameOrigin(steps, states[k - 1].rows[i], states[k].rows[i]);
    } else {
      NewRowHasOrigin(states, steps, k - 1, i);
    }
  }

  lemma SameOrigin(steps: seq<Step>, a: Row, b: Row)
    requires HasOrigin(steps, a) && b.username == a.username && b.userId == a.userId && b.pubkey == a.pubkey
    ensures HasOrigin(steps, b)
  {
    if x: nat, y: nat, z: nat, k1: string, issued: int :| RegisteredBy(steps, a, x, y, z, k1, issued) {
      assert RegisteredBy(steps, b, x, y, z, k1, issued);
    } else {
      var x: nat, z: nat, req: nat :| ClaimedBy(steps, a, x, z, req);
      assert ClaimedBy(steps, b, x, z, req);
    }
  }

  /**
    In every state of every run each name, active or retired, was registered inside the five minutes of
    its challenge by a callback that was signed with its key, or was created by a change of its account
    that was loaded when the name was not reserved.
   */
  lemma EveryNameHasAnOrigin(steps: seq<Step>, k: nat, i: nat)
    requires k <= |steps| && i < |StateAt(EMPTY, steps, k).rows|
    ensures HasOrigin(steps, StateAt(EMPTY, steps, k).rows[i])
  {
    StatesAreARun(steps);
    RowsHaveOrigins(States(steps), steps, k, i);
  }
}
