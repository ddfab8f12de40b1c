/** What every interleaving of registrations and name changes keeps. */
module NameRegistryInvariant {
  import opened Common
  import opened NameRegistry

  // ----- the invariant

  /** The unique name index, the mirror column, and one key per account and account per key. */
  ghost predicate GoodRows(rows: seq<Row>, users: nat) {
    && (forall i :: 0 <= i < |rows| ==>
          rows[i].userId < users && rows[i].activePubKey == if rows[i].active then Some(rows[i].pubkey) else None)
    && (forall i, j :: 0 <= i < j < |rows| ==> rows[i].username != rows[j].username)
    && (forall i, j :: 0 <= i < j < |rows| ==> (rows[i].pubkey == rows[j].pubkey <==> rows[i].userId == rows[j].userId))
  }

  ghost predicate OneActiveEach(rows: seq<Row>, users: nat) {
    && (forall i, j :: 0 <= i < j < |rows| && rows[i].active && rows[j].active ==> rows[i].userId != rows[j].userId)
    && (forall u: nat :: u < users ==> HasActive(rows, u))
  }

  ghost predicate HasActive(rows: seq<Row>, user: nat) {
    exists i :: 0 <= i < |rows| && rows[i].userId == user && rows[i].active
  }

  /** A change in flight remembers rows of its own account, by facts that never change. */
  ghost predicate GoodChange(rows: seq<Row>, c: Change) {
    && c.active < |rows| && rows[c.active].userId == c.userId
    && (c.owned.Some? ==> c.owned.value < |rows| && rows[c.owned.value].userId == c.userId
                          && rows[c.owned.value].username == c.username)
  }

  ghost predicate Inv(s: State) {
    && GoodRows(s.rows, |s.users|)
    && OneActiveEach(s.rows, |s.users|)
    && forall r :: r in s.changes ==> GoodChange(s.rows, s.changes[r])
  }

  /** Rows are never removed, and a row keeps its name, its owner and its key. */
  ghost predicate Extends(a: seq<Row>, b: seq<Row>) {
    && |a| <= |b|
    && forall i :: 0 <= i < |a| ==>
         a[i].username == b[i].username && a[i].userId == b[i].userId && a[i].pubkey == b[i].pubkey
  }

  // ----- one step

  lemma ChangesStayGood(s: State, rows: seq<Row>)
    requires Inv(s) && Extends(s.rows, rows)
    ensures forall r :: r in s.changes ==> GoodChange(rows, s.changes[r])
  {
  }

  /** A new account with a new name and a new key joins the rows. */
  lemma NewRowKeepsRows(rows: seq<Row>, users: nat, row: Row)
    requires GoodRows(rows, users) && OneActiveEach(rows, users)
    requires row.userId == users && row.active && row.activePubKey == Some(row.pubkey)
    requires forall i :: 0 <= i < |rows| ==> rows[i].pubkey != row.pubkey && rows[i].username != row.username
    ensures GoodRows(rows + [row], users + 1) && OneActiveEach(rows + [row], users + 1)
  {
    var more := rows + [row];
    forall u: nat | u < users + 1 ensures HasActive(more, u) {
      if u < users {
        assert HasActive(rows, u);
        var i :| 0 <= i < |rows| && rows[i].userId == u && rows[i].active;
        assert more[i] == rows[i];
      } else {
        assert more[|rows|] == row;
      }
    }
  }

  lemma RegistrationKeepsInv(s: State, req: nat, now: int)
    requires Inv(s)
    ensures Inv(Next(s, DoRegister(req, now))) && Extends(s.rows, Next(s, DoRegister(req, now)).rows)
  {
    var t := Next(s, DoRegister(req, now));
    if t.rows != s.rows {
      var row := t.rows[|s.rows|];
      assert t.rows == s.rows + [row];
      KeyIsNew(s, row.pubkey);
      NewRowKeepsRows(s.rows, |s.users|, row);
      ChangesStayGood(s, t.rows);
    }
  }

  /** A key that holds no active name belongs to no account at all. */
  lemma KeyIsNew(s: State, key: string)
    requires Inv(s) && !Held(s.rows, key, |s.rows|)
    ensures forall i :: 0 <= i < |s.rows| ==> s.rows[i].pubkey != key
  {
    forall i | 0 <= i < |s.rows|
      ensures s.rows[i].pubkey != key
    {
      assert HasActive(s.rows, s.rows[i].userId);
      var j :| 0 <= j < |s.rows| && s.rows[j].userId == s.rows[i].userId && s.rows[j].active;
      assert s.rows[j].activePubKey == Some(s.rows[j].pubkey);
      assert s.rows[i].pubkey == s.rows[j].pubkey;
    }
  }

  /** After a successful write the account's only active row is the requested name. */
  lemma WriteKeepsRows(s: State, c: Change)
    requires Inv(s) && GoodChange(s.rows, c) && WriteChange(s.rows, c).Rows?
    ensures var rows := WriteChange(s.rows, c).rows;
            GoodRows(rows, |s.users|) && OneActiveEach(rows, |s.users|) && Extends(s.rows, rows)
    ensures var rows := WriteChange(s.rows, c).rows;
            FindActive(rows, c.userId) < |rows| && rows[FindActive(rows, c.userId)].username == c.username
  {
    var rows := WriteChange(s.rows, c).rows;
    var target := if c.owned.Some? then c.owned.value else |s.rows|;
    if c.owned.Some? { ReactivateEffect(s, c); } else { CreateEffect(s, c); }
    assert Effect(s.rows, rows, |s.users|, c, target);
    forall u: nat | u < |s.users|
      ensures HasActive(rows, u)
    {
      if u == c.userId {
        assert rows[target].userId == u && rows[target].active;
      } else {
        assert HasActive(s.rows, u);
        var i :| 0 <= i < |s.rows| && s.rows[i].userId == u && s.rows[i].active;
        assert rows[i] == s.rows[i];
      }
    }
    assert OneActiveEach(rows, |s.users|);
    var a := FindActive(rows, c.userId);
    assert rows[target].userId == c.userId && rows[target].active;
    assert a == target;
  }

  /** The write changes rows of its own account only, and leaves exactly its target active there. */
  ghost predicate Effect(before: seq<Row>, after: seq<Row>, users: nat, c: Change, target: nat) {
    && Extends(before, after) && target < |after|
    && GoodRows(after, users)
    && after[target].username == c.username && after[target].userId == c.userId
    && (forall i :: 0 <= i < |after| && after[i].userId == c.userId ==> (after[i].active <==> i == target))
    && (forall i :: 0 <= i < |before| && before[i].userId != c.userId ==> after[i] == before[i])
    && (forall i :: |before| <= i < |after| ==> after[i].userId == c.userId)
  }

  lemma AccountSharesKey(rows: seq<Row>, users: nat, i: nat, j: nat)
    requires GoodRows(rows, users) && i < |rows| && j < |rows| && rows[i].userId == rows[j].userId
    ensures rows[i].pubkey == rows[j].pubkey
  {
  }

  /** If no other row holds the account's key, no other row of the account is active. */
  lemma NotHeldMeansInactive(s: State, c: Change, target: nat)
    requires Inv(s) && GoodChange(s.rows, c)
    requires !Held(Retire(s.rows, c.active), s.rows[c.active].pubkey, target)
    ensures forall i :: 0 <= i < |s.rows| && i != target && s.rows[i].userId == c.userId ==>
              !Retire(s.rows, c.active)[i].active
  {
  }

  lemma RetireKeepsRows(s: State, c: Change)
    requires Inv(s) && GoodChange(s.rows, c)
    ensures GoodRows(Retire(s.rows, c.active), |s.users|) && Extends(s.rows, Retire(s.rows, c.active))
  {
  }

  lemma ReactivateEffect(s: State, c: Change)
    requires Inv(s) && GoodChange(s.rows, c) && c.owned.Some? && WriteChange(s.rows, c).Rows?
    ensures Effect(s.rows, WriteChange(s.rows, c).rows, |s.users|, c, c.owned.value)
  {
    RetireKeepsRows(s, c);
    AccountSharesKey(s.rows, |s.users|, c.owned.value, c.active);
    NotHeldMeansInactive(s, c, c.owned.value);
    var r, rows := Retire(s.rows, c.active), WriteChange(s.rows, c).rows;
    assert forall i :: 0 <= i < |r| && i != c.owned.value ==> rows[i] == r[i];
  }

  lemma CreateEffect(s: State, c: Change)
    requires Inv(s) && GoodChange(s.rows, c) && c.owned.None? && WriteChange(s.rows, c).Rows?
    ensures Effect(s.rows, WriteChange(s.rows, c).rows, |s.users|, c, |s.rows|)
  {
    RetireKeepsRows(s, c);
    NotHeldMeansInactive(s, c, |s.rows|);
    var r, rows := Retire(s.rows, c.active), WriteChange(s.rows, c).rows;
    assert forall i :: 0 <= i < |r| ==> rows[i] == r[i];
    forall i | 0 <= i < |r|
      ensures r[i].pubkey == s.rows[c.active].pubkey <==> r[i].userId == c.userId
    {
      if i < c.active { assert r[i].pubkey == r[c.active].pubkey <==> r[i].userId == r[c.active].userId; }
      if c.active < i { assert r[c.active].pubkey == r[i].pubkey <==> r[c.active].userId == r[i].userId; }
    }
  }

  lemma CommitKeepsInv(s: State, req: nat)
    requires Inv(s)
    ensures Inv(Next(s, DoCommit(req))) && Extends(s.rows, Next(s, DoCommit(req)).rows)
  {
    if req in s.changes && s.changes[req].phase == Ready {
      var c := s.changes[req];
      assert GoodChange(s.rows, c);
      if WriteChange(s.rows, c).Rows? {
        WriteKeepsRows(s, c);
        ChangesStayGood(s, WriteChange(s.rows, c).rows);
      }
    }
  }

  /** A step that leaves the rows alone and tracks only good changes keeps the invariant. */
  ghost predicate Quiet(s: State, t: State) {
    && t.rows == s.rows && |t.users| == |s.users|
    && forall r :: r in t.changes ==> GoodChange(s.rows, t.changes[r])
  }

  lemma LoadIsQuiet(s: State, req: nat, user: nat, username: string, reserved: bool)
    requires Inv(s)
    ensures Quiet(s, LoadChange(s, req, user, username, reserved).0)
  {
    var t := LoadChange(s, req, user, username, reserved).0;
    forall r | r in t.changes
      ensures GoodChange(s.rows, t.changes[r])
    {
      if r in s.changes { assert GoodChange(s.rows, s.changes[r]); }
    }
  }

  lemma CheckTakenIsQuiet(s: State, req: nat)
    requires Inv(s)
    ensures Quiet(s, CheckTaken(s, req).0)
  {
  }

  lemma OtherStepsAreQuiet(s: State, step: Step)
    requires Inv(s) && !step.DoRegister? && !step.DoCommit?
    ensures Quiet(s, Next(s, step))
  {
    match step
    case DoChallenge(_, _) =>
    case DoStart(_, _, _, _, _, _) =>
    case DoCheckKey(_, _) =>
    case DoCheckName(_) =>
    case DoPurge(_, _) =>
    case DoLoad(req, user, username, reserved) => LoadIsQuiet(s, req, user, username, reserved);
    case DoCheckTaken(req) => CheckTakenIsQuiet(s, req);
    case DoConverge(_) =>
    case DoGrant(_, _) =>
  }

  lemma QuietKeepsInv(s: State, t: State)
    requires Inv(s) && Quiet(s, t)
    ensures Inv(t) && Extends(s.rows, t.rows)
  {
  }

  /** Every step keeps the invariant and the immutable columns. */
  lemma StepKeepsInv(s: State, step: Step)
    requires Inv(s)
    ensures Inv(Next(s, step)) && Extends(s.rows, Next(s, step).rows)
  {
    if step.DoRegister? {
      RegistrationKeepsInv(s, step.req, step.now);
    } else if step.DoCommit? {
      CommitKeepsInv(s, step.req);
    } else {
      OtherStepsAreQuiet(s, step);
      QuietKeepsInv(s, Next(s, step));
    }
  }

  // ----- every run

  /** The invariant holds in every state of every run. */
  lemma RunKeepsInv(s: State, steps: seq<Step>, k: nat)
    requires Inv(s) && k <= |steps|
    ensures Inv(StateAt(s, steps, k))
  {
    forall t, j | 0 <= j < k && Inv(t)
      ensures Inv(Next(t, steps[j]))
    {
      StepKeepsInv(t, steps[j]);
    }
    RunInduction(s, steps, k, t => Inv(t));
  }

  lemma ExtendedByStep(rows: seq<Row>, s: State, step: Step)
    requires Inv(s) && Extends(rows, s.rows)
    ensures Inv(Next(s, step)) && Extends(rows, Next(s, step).rows)
  {
    StepKeepsInv(s, step);
  }

  /** A name owned in some state keeps its owner and its key in every state of every run from there. */
  lemma OwnershipIsForever(s: State, steps: seq<Step>, k: nat)
    requires Inv(s) && k <= |steps|
    ensures Extends(s.rows, StateAt(s, steps, k).rows)
  {
    forall t, j | 0 <= j < k && Inv(t) && Extends(s.rows, t.rows)
      ensures Inv(Next(t, steps[j])) && Extends(s.rows, Next(t, steps[j]).rows)
    {
      ExtendedByStep(s.rows, t, steps[j]);
    }
    RunInduction(s, steps, k, t => Inv(t) && Extends(s.rows, t.rows));
  }

  /** In every reachable state every account has exactly one active row, and it mirrors its key. */
  lemma EveryAccountHasOneActiveName(steps: seq<Step>, user: nat)
    requires user < |Run(EMPTY, steps).users|
    ensures var rows := Run(EMPTY, steps).rows;
            var a := FindActive(rows, user);
            && a < |rows| && rows[a].activePubKey == Some(rows[a].pubkey)
            && forall i :: 0 <= i < |rows| && i != a && rows[i].userId == user ==>
              !rows[i].active && rows[i].activePubKey.None?
  {
    RunKeepsInv(EMPTY, steps, |steps|);
    var rows := Run(EMPTY, steps).rows;
    assert HasActive(rows, user);
  }
}
