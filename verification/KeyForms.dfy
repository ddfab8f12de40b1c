/**
  One public key has two texts, compressed and uncompressed, and the unique index compares texts. The
  look-up over both forms in src/auth/auth.service.ts is advisory: a run in which two forms of one key
  both register, and the exact gap that has to be closed for one account per key.
 */
module KeyForms {
  import opened Common
  import opened NameRegistry
  import opened NameRegistryInvariant

  /** forms(k) are the texts of the key k. */
  ghost predicate Equivalence(forms: string -> set<string>) {
    && (forall k :: k in forms(k))
    && (forall a, b :: a in forms(b) ==> forms(a) == forms(b))
  }

  /** Rows whose keys are two texts of one key belong to one account. */
  ghost predicate OneAccountPerKey(forms: string -> set<string>, rows: seq<Row>) {
    forall i, j :: 0 <= i < |rows| && 0 <= j < |rows| && rows[i].pubkey in forms(rows[j].pubkey) ==>
      rows[i].userId == rows[j].userId
  }

  ghost predicate NoRowIn(rows: seq<Row>, texts: set<string>) {
    forall i :: 0 <= i < |rows| ==> rows[i].pubkey !in texts
  }

  // ----- one step

  predicate Registers(s: State, step: Step) {
    Execute(s, step).1.Registered?
  }

  /** The key a successful registration binds. */
  function KeyOf(s: State, step: Step): string
    requires Registers(s, step)
  {
    if step.DoRegister? && step.req in s.callbacks then s.callbacks[step.req].key else ""
  }

  /** A row that is new after a step other than a registration belongs to an account that was there. */
  ghost predicate SameAccounts(a: seq<Row>, b: seq<Row>) {
    forall i :: 0 <= i < |b| ==> HasAccount(a, b[i].userId, b[i].pubkey)
  }

  ghost predicate HasAccount(rows: seq<Row>, user: nat, key: string) {
    exists j :: 0 <= j < |rows| && rows[j].userId == user && rows[j].pubkey == key
  }

  lemma CommitKeepsAccounts(s: State, req: nat)
    requires Inv(s)
    ensures SameAccounts(s.rows, CommitChange(s, req).0.rows)
  {
    if req in s.changes { assert GoodChange(s.rows, s.changes[req]); }
    var t := CommitChange(s, req).0.rows;
    forall i | 0 <= i < |t|
      ensures HasAccount(s.rows, t[i].userId, t[i].pubkey)
    {
      var j := if i < |s.rows| then i else s.changes[req].active;
      assert s.rows[j].userId == t[i].userId && s.rows[j].pubkey == t[i].pubkey;
    }
  }

  lemma OthersKeepAccounts(s: State, step: Step)
    requires Inv(s) && !Registers(s, step)
    ensures SameAccounts(s.rows, Next(s, step).rows)
  {
    if step.DoCommit? {
      CommitKeepsAccounts(s, step.req);
    } else {
      if !step.DoRegister? { OtherStepsAreQuiet(s, step); }
      SameRows(s.rows);
    }
  }

  lemma SameRows(rows: seq<Row>)
    ensures SameAccounts(rows, rows)
  {
  }

  lemma RegistrationAppends(s: State, step: Step)
    requires Registers(s, step)
    ensures step.DoRegister? && step.req in s.callbacks && s.callbacks[step.req].stage == NameRead
    ensures Next(s, step).rows ==
              s.rows + [Row(s.callbacks[step.req].username, |s.users|, KeyOf(s, step), true, Some(KeyOf(s, step)))]
  {
  }

  lemma SameAccountsKeepForms(forms: string -> set<string>, a: seq<Row>, b: seq<Row>)
    requires SameAccounts(a, b) && OneAccountPerKey(forms, a)
    ensures OneAccountPerKey(forms, b)
  {
    forall i, j | 0 <= i < |b| && 0 <= j < |b| && b[i].pubkey in forms(b[j].pubkey)
      ensures b[i].userId == b[j].userId
    {
      assert HasAccount(a, b[i].userId, b[i].pubkey) && HasAccount(a, b[j].userId, b[j].pubkey);
      var x :| 0 <= x < |a| && a[x].userId == b[i].userId && a[x].pubkey == b[i].pubkey;
      var y :| 0 <= y < |a| && a[y].userId == b[j].userId && a[y].pubkey == b[j].pubkey;
      assert a[x].pubkey in forms(a[y].pubkey);
    }
  }

  lemma NewKeyKeepsForms(forms: string -> set<string>, rows: seq<Row>, row: Row)
    requires Equivalence(forms) && OneAccountPerKey(forms, rows) && NoRowIn(rows, forms(row.pubkey))
    ensures OneAccountPerKey(forms, rows + [row])
  {
    var b := rows + [row];
    forall i, j | 0 <= i < |b| && 0 <= j < |b| && b[i].pubkey in forms(b[j].pubkey)
      ensures b[i].userId == b[j].userId
    {
      Symmetric(forms, b[i].pubkey, b[j].pubkey);
    }
  }

  lemma Symmetric(forms: string -> set<string>, a: string, b: string)
    requires Equivalence(forms) && a in forms(b)
    ensures b in forms(a)
  {
    assert b in forms(b);
  }

  lemma SameAccountsKeepAbsence(a: seq<Row>, b: seq<Row>, texts: set<string>)
    requires SameAccounts(a, b) && NoRowIn(a, texts)
    ensures NoRowIn(b, texts)
  {
  }

  /** If no active row holds any text of a key, no row at all does. */
  lemma FreeInEveryForm(s: State, texts: set<string>)
    requires Inv(s) && !HeldInAnyForm(s.rows, texts)
    ensures NoRowIn(s.rows, texts)
  {
    forall i | 0 <= i < |s.rows|
      ensures s.rows[i].pubkey !in texts
    {
      assert HasActive(s.rows, s.rows[i].userId);
      var j :| 0 <= j < |s.rows| && s.rows[j].userId == s.rows[i].userId && s.rows[j].active;
      AccountSharesKey(s.rows, |s.users|, i, j);
      assert s.rows[j].activePubKey == Some(s.rows[j].pubkey);
    }
  }

  // ----- since the key check of a callback

  /** Callback req, for this key, has passed its key check. */
  predicate Passed(s: State, req: nat, key: string) {
    req in s.callbacks && s.callbacks[req].key == key && s.callbacks[req].stage != NonceRead
  }

  /** The step is the key check of callback req, and the check passes. */
  predicate Passes(s: State, step: Step, req: nat, key: string) {
    && step.DoCheckKey? && step.req == req && req in s.callbacks && s.callbacks[req].key == key
    && !HeldInAnyForm(s.rows, step.forms)
  }

  lemma PassedByPassing(s: State, step: Step, req: nat, key: string)
    requires Passed(Next(s, step), req, key)
    ensures Passed(s, req, key) || Passes(s, step, req, key)
  {
    match step
    case DoChallenge(_, _) =>
    case DoStart(_, _, _, _, _, _) =>
    case DoCheckKey(_, _) =>
    case DoCheckName(_) =>
    case DoRegister(_, _) =>
    case DoPurge(_, _) =>
    case DoLoad(_, _, _, _) =>
    case DoCheckTaken(_) =>
    case DoCommit(_) =>
    case DoConverge(_) =>
    case DoGrant(_, _) =>
  }

  /** The states of a run: each follows from the one before. */
  ghost predicate IsRun(states: seq<State>, steps: seq<Step>) {
    |states| == |steps| + 1 && states[0] == EMPTY && forall k: nat :: k < |steps| ==> Follows(states, steps, k)
  }

  ghost predicate Follows(states: seq<State>, steps: seq<Step>, k: nat) {
    k < |steps| && k + 1 < |states| && states[k + 1] == Next(states[k], steps[k])
  }

  lemma StatesAreARun(steps: seq<Step>)
    ensures IsRun(States(steps), steps)
  {
    forall k: nat | k < |steps|
      ensures Follows(States(steps), steps, k)
    {
      assert StateAt(EMPTY, steps, k + 1) == Next(StateAt(EMPTY, steps, k), steps[k]);
    }
  }

  lemma {:induction false} InvInRun(states: seq<State>, steps: seq<Step>, k: nat)
    requires IsRun(states, steps) && k < |states|
    ensures Inv(states[k])
  {
    if k > 0 {
      InvInRun(states, steps, k - 1);
      assert Follows(states, steps, k - 1);
      StepKeepsInv(states[k - 1], steps[k - 1]);
    }
  }

  /** Callback req passed its key check at step i and has been in flight ever since, up to state k. */
  ghost predicate PassedSince(states: seq<State>, steps: seq<Step>, i: nat, k: nat, req: nat, key: string) {
    && i < k < |states| && i < |steps|
    && Passes(states[i], steps[i], req, key)
    && (forall m: nat :: i < m <= k ==> Passed(states[m], req, key))
  }

  lemma {:induction false} KeyCheckOf(states: seq<State>, steps: seq<Step>, k: nat, req: nat,
                                      key: string) returns (i: nat)
    requires IsRun(states, steps) && k < |states| && Passed(states[k], req, key)
    ensures PassedSince(states, steps, i, k, req, key)
  {
    assert Follows(states, steps, k - 1);
    PassedByPassing(states[k - 1], steps[k - 1], req, key);
    if Passed(states[k - 1], req, key) {
      i := KeyCheckOf(states, steps, k - 1, req, key);
    } else {
      i := k - 1;
    }
  }

  // ----- one account per key

  /** The step registers some text of the key. */
  ghost predicate RegistersForm(forms: string -> set<string>, s: State, step: Step, key: string) {
    Registers(s, step) && KeyOf(s, step) in forms(key)
  }

  /** The key check looks up every text of its key. */
  ghost predicate LooksUpAll(forms: string -> set<string>, s: State, step: Step) {
    step.DoCheckKey? && step.req in s.callbacks ==> step.forms == forms(s.callbacks[step.req].key)
  }

  ghost predicate Faithful(forms: string -> set<string>, states: seq<State>, steps: seq<Step>) {
    forall i :: 0 <= i < |steps| < |states| ==> LooksUpAll(forms, states[i], steps[i])
  }

  /** Step m registers a text of the key between the key check at i and the registration at j of callback req. */
  ghost predicate Disturbs(forms: string -> set<string>, states: seq<State>, steps: seq<Step>,
                           i: nat, m: nat, j: nat, req: nat, key: string) {
    && i < m < j < |steps| < |states| && PassedSince(states, steps, i, j, req, key)
    && steps[j].DoRegister? && steps[j].req == req && Registers(states[j], steps[j])
    && RegistersForm(forms, states[m], steps[m], key)
  }

  ghost predicate Undisturbed(forms: string -> set<string>, states: seq<State>, steps: seq<Step>) {
    forall i, m, j, req, key :: !Disturbs(forms, states, steps, i, m, j, req, key)
  }

  /** What one step does to the rows that hold some text of a key. */
  lemma AbsenceStays(forms: string -> set<string>, s: State, step: Step, key: string)
    requires Inv(s) && NoRowIn(s.rows, forms(key)) && !RegistersForm(forms, s, step, key)
    ensures NoRowIn(Next(s, step).rows, forms(key))
  {
    if Registers(s, step) {
      RegistrationAppends(s, step);
    } else {
      OthersKeepAccounts(s, step);
      SameAccountsKeepAbsence(s.rows, Next(s, step).rows, forms(key));
    }
  }

  /** A text absent at the key check of callback req is absent until its undisturbed registration at step j. */
  lemma {:induction false} AbsentUntil(forms: string -> set<string>, states: seq<State>, steps: seq<Step>,
                                       i: nat, k: nat, j: nat, key: string)
    requires IsRun(states, steps) && Undisturbed(forms, states, steps) && i < k <= j < |steps|
    requires steps[j].DoRegister? && Registers(states[j], steps[j])
    requires PassedSince(states, steps, i, j, steps[j].req, key)
    requires NoRowIn(states[i].rows, forms(key))
    ensures NoRowIn(states[k].rows, forms(key))
    decreases k
  {
    if i < k - 1 {
      AbsentUntil(forms, states, steps, i, k - 1, j, key);
      assert !Disturbs(forms, states, steps, i, k - 1, j, steps[j].req, key);
    } else {
      CheckDoesNotRegister(states[i], steps[i]);
    }
    AbsenceInRun(forms, states, steps, k - 1, key);
  }

  lemma CheckDoesNotRegister(s: State, step: Step)
    requires step.DoCheckKey?
    ensures !Registers(s, step)
  {
  }

  lemma AbsenceInRun(forms: string -> set<string>, states: seq<State>, steps: seq<Step>, m: nat, key: string)
    requires IsRun(states, steps) && m < |steps|
    requires NoRowIn(states[m].rows, forms(key)) && !RegistersForm(forms, states[m], steps[m], key)
    ensures NoRowIn(states[m + 1].rows, forms(key))
  {
    InvInRun(states, steps, m);
    assert Follows(states, steps, m);
    AbsenceStays(forms, states[m], steps[m], key);
  }

  /** A registration that nothing disturbed finds no row with any text of its key. */
  lemma RegistersAFreeKey(forms: string -> set<string>, states: seq<State>, steps: seq<Step>, j: nat)
    requires IsRun(states, steps) && Faithful(forms, states, steps) && Undisturbed(forms, states, steps)
    requires j < |steps| && Registers(states[j], steps[j])
    ensures NoRowIn(states[j].rows, forms(KeyOf(states[j], steps[j])))
  {
    RegistrationAppends(states[j], steps[j]);
    var req, key := steps[j].req, KeyOf(states[j], steps[j]);
    var i := KeyCheckOf(states, steps, j, req, key);
    InvInRun(states, steps, i);
    assert LooksUpAll(forms, states[i], steps[i]);
    FreeInEveryForm(states[i], forms(key));
    AbsentUntil(forms, states, steps, i, j, j, key);
  }

  lemma FormsOfOneStep(forms: string -> set<string>, s: State, step: Step)
    requires Equivalence(forms) && Inv(s) && OneAccountPerKey(forms, s.rows)
    requires Registers(s, step) ==> NoRowIn(s.rows, forms(KeyOf(s, step)))
    ensures OneAccountPerKey(forms, Next(s, step).rows)
  {
    if Registers(s, step) {
      RegistrationAppends(s, step);
      NewKeyKeepsForms(forms, s.rows, Next(s, step).rows[|s.rows|]);
    } else {
      OthersKeepAccounts(s, step);
      SameAccountsKeepForms(forms, s.rows, Next(s, step).rows);
    }
  }

  lemma {:induction false} FormsInRun(forms: string -> set<string>, states: seq<State>, steps: seq<Step>, k: nat)
    requires IsRun(states, steps) && Equivalence(forms) && k < |states|
    requires Faithful(forms, states, steps) && Undisturbed(forms, states, steps)
    ensures OneAccountPerKey(forms, states[k].rows)
  {
    if k > 0 {
      FormsInRun(forms, states, steps, k - 1);
      FormsAtStep(forms, states, steps, k - 1);
    }
  }

  lemma FormsAtStep(forms: string -> set<string>, states: seq<State>, steps: seq<Step>, k: nat)
    requires IsRun(states, steps) && Equivalence(forms) && k < |steps|
    requires Faithful(forms, states, steps) && Undisturbed(forms, states, steps)
    requires OneAccountPerKey(forms, states[k].rows)
    ensures OneAccountPerKey(forms, states[k + 1].rows)
  {
    InvInRun(states, steps, k);
    assert Follows(states, steps, k);
    if Registers(states[k], steps[k]) {
      RegistersAFreeKey(forms, states, steps, k);
    }
    FormsOfOneStep(forms, states[k], steps[k]);
  }

  /**
    Two texts of one key never belong to two accounts, in every run in which each key check looks up
    all texts of its key and no other text of it registers between the check and the registration.
   */
  lemma FormsShareAnAccount(forms: string -> set<string>, steps: seq<Step>, k: nat)
    requires Equivalence(forms) && k <= |steps|
    requires Faithful(forms, States(steps), steps) && Undisturbed(forms, States(steps), steps)
    ensures OneAccountPerKey(forms, StateAt(EMPTY, steps, k).rows)
  {
    StatesAreARun(steps);
    FormsInRun(forms, States(steps), steps, k);
  }

  // ----- two forms that race

  /** Two callbacks for two texts of one key, both past their key checks before either registers. */
  function Race(k1: string, k2: string, a: string, b: string, x: string, y: string): seq<Step> {
    [DoChallenge(k1, 0), DoChallenge(k2, 0),
     DoStart(1, k1, a, x, true, 0), DoStart(2, k2, b, y, true, 0),
     DoCheckKey(1, {a, b}), DoCheckKey(2, {a, b}), DoCheckName(1), DoCheckName(2),
     DoRegister(1, 0), DoRegister(2, 0)]
  }

  lemma {:induction false} AfterPrefix(s: State, steps: seq<Step>, k: nat, t: State)
    requires k < |steps| && StateAt(s, steps, k) == t
    ensures StateAt(s, steps, k + 1) == Next(t, steps[k])
  {
  }

  function Waiting(k1: string, k2: string, a: string, b: string, x: string, y: string, first: Stage,
                   second: Stage): State {
    EMPTY.(nonces := map[k1 := Nonce(NONCE_TTL_MS, None), k2 := Nonce(NONCE_TTL_MS, None)], issued := {k1, k2},
           callbacks := map[1 := Callback(k1, a, x, first), 2 := Callback(k2, b, y, second)])
  }

  lemma RaceStarts(k1: string, k2: string, a: string, b: string, x: string, y: string)
    requires k1 != k2
    ensures StateAt(EMPTY, Race(k1, k2, a, b, x, y), 4) == Waiting(k1, k2, a, b, x, y, NonceRead, NonceRead)
  {
    var r := Race(k1, k2, a, b, x, y);
    var s1 := Next(EMPTY, r[0]);
    var s2 := Next(s1, r[1]);
    var s3 := Next(s2, r[2]);
    AfterPrefix(EMPTY, r, 0, EMPTY);
    AfterPrefix(EMPTY, r, 1, s1);
    AfterPrefix(EMPTY, r, 2, s2);
    AfterPrefix(EMPTY, r, 3, s3);
    assert s2.nonces == map[k1 := Nonce(NONCE_TTL_MS, None), k2 := Nonce(NONCE_TTL_MS, None)] && s2.issued == {k1, k2};
    assert s3.callbacks == map[1 := Callback(k1, a, x, NonceRead)];
  }

  lemma KeyChecksPass(k1: string, k2: string, a: string, b: string, x: string, y: string)
    requires k1 != k2
    ensures StateAt(EMPTY, Race(k1, k2, a, b, x, y), 6) == Waiting(k1, k2, a, b, x, y, KeyRead, KeyRead)
  {
    var r := Race(k1, k2, a, b, x, y);
    RaceStarts(k1, k2, a, b, x, y);
    AfterPrefix(EMPTY, r, 4, Waiting(k1, k2, a, b, x, y, NonceRead, NonceRead));
    AfterPrefix(EMPTY, r, 5, Waiting(k1, k2, a, b, x, y, KeyRead, NonceRead));
  }

  lemma RaceChecks(k1: string, k2: string, a: string, b: string, x: string, y: string)
    requires k1 != k2
    ensures StateAt(EMPTY, Race(k1, k2, a, b, x, y), 8) == Waiting(k1, k2, a, b, x, y, NameRead, NameRead)
  {
    var r := Race(k1, k2, a, b, x, y);
    KeyChecksPass(k1, k2, a, b, x, y);
    AfterPrefix(EMPTY, r, 6, Waiting(k1, k2, a, b, x, y, KeyRead, KeyRead));
    AfterPrefix(EMPTY, r, 7, Waiting(k1, k2, a, b, x, y, NameRead, KeyRead));
  }

  /** Both look-ups pass, both texts register, and one key holds two accounts. */
  lemma RacingFormsBothRegister(k1: string, k2: string, a: string, b: string, x: string, y: string)
    requires k1 != k2 && a != b && x != y
    ensures var rows := Run(EMPTY, Race(k1, k2, a, b, x, y)).rows;
            |rows| == 2 && rows[0].pubkey == a && rows[1].pubkey == b && rows[0].userId != rows[1].userId
  {
    var r := Race(k1, k2, a, b, x, y);
    RaceChecks(k1, k2, a, b, x, y);
    var s := Waiting(k1, k2, a, b, x, y, NameRead, NameRead);
    AfterPrefix(EMPTY, r, 8, s);
    var t := Next(s, r[8]);
    assert t.rows == [Row(x, 0, a, true, Some(a))] && t.users == [0];
    AfterPrefix(EMPTY, r, 9, t);
    assert Next(t, r[9]).rows == t.rows + [Row(y, 1, b, true, Some(b))];
  }
}
