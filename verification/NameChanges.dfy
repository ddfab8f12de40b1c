/** What a username-change response means, under concurrency and for the quota of serial runs. */
module NameChanges {
  import opened Common
  import opened NameRegistry
  import opened NameRegistryInvariant

  // ----- a success happened inside its request

  predicate IsOn(s: State, user: nat, username: string) {
    var a := FindActive(s.rows, user);
    a < |s.rows| && s.rows[a].username == username
  }

  /** The step that answers with success leaves, or finds, the account on the requested name. */
  lemma SuccessIsTrue(s: State, step: Step)
    requires Inv(s) && Execute(s, step).1.Moved?
    ensures var reply := Execute(s, step).1;
            && reply.req in s.changes && reply.username == s.changes[reply.req].username
            && (IsOn(Next(s, step), s.changes[reply.req].userId, reply.username)
                || IsOn(s, s.changes[reply.req].userId, reply.username))
  {
    if step.DoCommit? {
      var c := s.changes[step.req];
      assert GoodChange(s.rows, c);
      WriteKeepsRows(s, c);
    }
  }

  /** active is the row the request read as the account's active one. */
  predicate Carries(s: State, req: nat, user: nat, username: string, active: nat) {
    && req in s.changes
    && s.changes[req].userId == user && s.changes[req].username == username && s.changes[req].active == active
  }

  predicate Loads(s: State, step: Step, req: nat, user: nat, username: string, active: nat) {
    && step.DoLoad? && step.req == req && step.user == user && step.username == username
    && FindActive(s.rows, user) == active
  }

  /** Request req was loaded at step begin and has been in flight ever since, up to state k. */
  ghost predicate InFlight(states: seq<State>, steps: seq<Step>, begin: nat, k: nat, req: nat, user: nat,
                           username: string, active: nat) {
    && begin < k < |states| && begin < |steps|
    && Loads(states[begin], steps[begin], req, user, username, active)
    && (forall m :: begin < m <= k ==> Carries(states[m], req, user, username, active))
  }

  lemma StepKeepsChange(s: State, step: Step, req: nat)
    requires req in Next(s, step).changes
    ensures var c := Next(s, step).changes[req];
            if req in s.changes then Carries(s, req, c.userId, c.username, c.active)
            else Loads(s, step, req, c.userId, c.username, c.active)
  {
    match step
    case DoChallenge(_, _) =>
    case DoStart(_, _, _, _, _, _) =>
    case DoCheckKey(_, _) =>
    case DoCheckName(_) =>
    case DoRegister(_, _) =>
    case DoPurge(_, _) =>
    case DoLoad(_, _, _, _) =>
    case DoCheckTaken(_) =>
    case DoCommit(_) =>
    case DoConverge(_) =>
    case DoGrant(_, _) =>
  }

  /** If a request can only appear by being loaded, one that is there was loaded and never left. */
  lemma {:induction false} InFlightSince(states: seq<State>, steps: seq<Step>, k: nat, req: nat, user: nat,
                                         username: string, active: nat) returns (begin: nat)
    requires |states| == |steps| + 1 && k < |states| && Carries(states[k], req, user, username, active)
    requires !Carries(states[0], req, user, username, active)
    requires forall j :: 0 <= j < |steps| && Carries(states[j + 1], req, user, username, active) ==>
               || Carries(states[j], req, user, username, active)
               || Loads(states[j], steps[j], req, user, username, active)
    ensures InFlight(states, steps, begin, k, req, user, username, active)
  {
    assert Carries(states[(k - 1) + 1], req, user, username, active);
    if Carries(states[k - 1], req, user, username, active) {
      begin := InFlightSince(states, steps, k - 1, req, user, username, active);
    } else {
      begin := k - 1;
    }
  }

  lemma CarriedOrLoaded(steps: seq<Step>, j: nat, req: nat, user: nat, username: string, active: nat)
    requires j < |steps| && Carries(StateAt(EMPTY, steps, j + 1), req, user, username, active)
    ensures var s := StateAt(EMPTY, steps, j);
            Carries(s, req, user, username, active) || Loads(s, steps[j], req, user, username, active)
  {
    StepKeepsChange(StateAt(EMPTY, steps, j), steps[j], req);
  }

  lemma LoadedInRun(steps: seq<Step>, k: nat, req: nat, user: nat, username: string, active: nat) returns (begin: nat)
    requires k <= |steps| && Carries(StateAt(EMPTY, steps, k), req, user, username, active)
    ensures InFlight(States(steps), steps, begin, k, req, user, username, active)
  {
    forall j | 0 <= j < |steps| && Carries(StateAt(EMPTY, steps, j + 1), req, user, username, active)
      ensures var s := StateAt(EMPTY, steps, j);
              Carries(s, req, user, username, active) || Loads(s, steps[j], req, user, username, active)
    {
      CarriedOrLoaded(steps, j, req, user, username, active);
    }
    begin := InFlightSince(States(steps), steps, k, req, user, username, active);
  }

  function ReplyAt(steps: seq<Step>, k: nat): Reply
    requires k < |steps|
  {
    Execute(StateAt(EMPTY, steps, k), steps[k]).1
  }

  lemma SuccessHasAnInstant(steps: seq<Step>, k: nat) returns (instant: nat, c: Change)
    requires k < |steps| && ReplyAt(steps, k).Moved?
    ensures ReplyAt(steps, k).req in StateAt(EMPTY, steps, k).changes
    ensures c == StateAt(EMPTY, steps, k).changes[ReplyAt(steps, k).req] && c.username == ReplyAt(steps, k).username
    ensures k <= instant <= k + 1 && IsOn(StateAt(EMPTY, steps, instant), c.userId, c.username)
  {
    var s := StateAt(EMPTY, steps, k);
    RunKeepsInv(EMPTY, steps, k);
    SuccessIsTrue(s, steps[k]);
    c := s.changes[ReplyAt(steps, k).req];
    instant := if IsOn(s, c.userId, c.username) then k else k + 1;
  }

  /** The account was on the name at some state after the request's load and no later than its answer at step k. */
  ghost predicate HappenedWithin(states: seq<State>, steps: seq<Step>, begin: nat, instant: nat, k: nat, req: nat,
                                 user: nat, username: string, active: nat) {
    && InFlight(states, steps, begin, k, req, user, username, active)
    && begin < instant <= k + 1 < |states|
    && IsOn(states[instant], user, username)
  }

  /**
    Every success answer, by the request's own commit or by convergence after a lost race, names a
    state of the run inside the request in which the account's active name was the requested one.
   */
  lemma EverySuccessHappened(steps: seq<Step>, k: nat)
    requires k < |steps| && ReplyAt(steps, k).Moved?
    ensures exists begin: nat, instant: nat, user: nat, active: nat ::
              HappenedWithin(States(steps), steps, begin, instant, k, ReplyAt(steps, k).req, user,
                             ReplyAt(steps, k).username, active)
  {
    var instant, c := SuccessHasAnInstant(steps, k);
    var begin := LoadedInRun(steps, k, ReplyAt(steps, k).req, c.userId, c.username, c.active);
    assert HappenedWithin(States(steps), steps, begin, instant, k, ReplyAt(steps, k).req, c.userId,
                          ReplyAt(steps, k).username, c.active);
  }

  // ----- a refusal is true

  /** After the retirement, another row holds the account's key exactly when the account has moved to it. */
  lemma HeldIffMoved(s: State, c: Change, except: nat)
    requires Inv(s) && GoodChange(s.rows, c)
    ensures var a := FindActive(s.rows, c.userId);
            Held(Retire(s.rows, c.active), s.rows[c.active].pubkey, except) <==> a != c.active && a != except
  {
    var r, a := Retire(s.rows, c.active), FindActive(s.rows, c.userId);
    assert HasActive(s.rows, c.userId);
    AccountSharesKey(s.rows, |s.users|, a, c.active);
    if a != c.active && a != except {
      assert r[a].activePubKey == Some(s.rows[c.active].pubkey);
    }
    if Held(r, s.rows[c.active].pubkey, except) {
      var j :| 0 <= j < |r| && j != except && r[j].activePubKey == Some(s.rows[c.active].pubkey);
      KeySharesAccount(s.rows, |s.users|, j, c.active);
      assert s.rows[j].active;
    }
  }

  lemma KeySharesAccount(rows: seq<Row>, users: nat, i: nat, j: nat)
    requires GoodRows(rows, users) && i < |rows| && j < |rows| && rows[i].pubkey == rows[j].pubkey
    ensures rows[i].userId == rows[j].userId
  {
  }

  /**
    Exactly when a commit based on an earlier read goes through: the account is still on the name it
    was on, or already back on the owned name it asks for, and a name to be created is free.
   */
  lemma CommitSucceedsIff(s: State, c: Change)
    requires Inv(s) && GoodChange(s.rows, c)
    ensures var a, written := FindActive(s.rows, c.userId), WriteChange(s.rows, c);
            var unmoved := a == c.active || c.owned == Some(a);
            var free := c.owned.Some? || FindName(s.rows, c.username) == |s.rows|;
            && (written.Rows? <==> unmoved && free)
            && (written == Violation(UsernameTaken) <==> !free)
            && (written == Violation(ChangeInProgress) <==> !unmoved && free)
  {
    assert HasActive(s.rows, c.userId);
    if c.owned.Some? {
      AccountSharesKey(s.rows, |s.users|, c.owned.value, c.active);
      HeldIffMoved(s, c, c.owned.value);
    } else {
      HeldIffMoved(s, c, |s.rows|);
      NameUnchangedByRetire(s.rows, c.active, c.username);
    }
  }

  predicate Exists(s: State, username: string) {
    FindName(s.rows, username) < |s.rows|
  }

  lemma NamesStay(a: seq<Row>, b: seq<Row>, username: string)
    requires Extends(a, b) && FindName(a, username) < |a|
    ensures FindName(b, username) < |b|
  {
  }

  /** A request that lost a name, or a race, remembers a loss that really happened. */
  ghost predicate RealLosses(s: State) {
    forall r :: r in s.changes && s.changes[r].phase.Converging? ==>
      var cause := s.changes[r].phase.cause;
      cause == ChangeInProgress || (cause == UsernameTaken && Exists(s, s.changes[r].username))
  }

  lemma StepKeepsLosses(s: State, step: Step)
    requires Inv(s) && RealLosses(s)
    ensures RealLosses(Next(s, step))
  {
    var t := Next(s, step);
    StepKeepsInv(s, step);
    forall r | r in t.changes && t.changes[r].phase.Converging?
      ensures var cause := t.changes[r].phase.cause;
              cause == ChangeInProgress || (cause == UsernameTaken && Exists(t, t.changes[r].username))
    {
      NewLossIsReal(s, step, r);
      StepKeepsChange(s, step, r);
      if Exists(s, t.changes[r].username) { NamesStay(s.rows, t.rows, t.changes[r].username); }
    }
  }

  /** The account is no longer on the row that was read as its active one. */
  predicate HasMoved(s: State, user: nat, active: nat) {
    FindActive(s.rows, user) != active
  }

  /** A phase that a step leaves or creates for request r is no new loss, or a real one. */
  ghost predicate LossStep(s: State, t: State, r: nat) {
    r in t.changes && t.changes[r].phase.Converging? ==>
      && r in s.changes
      && (|| t.changes[r].phase == s.changes[r].phase
          || (t.changes[r].phase.cause == ChangeInProgress && HasMoved(s, s.changes[r].userId, s.changes[r].active))
          || (t.changes[r].phase.cause == UsernameTaken && Exists(s, s.changes[r].username)))
  }

  lemma CommitLoss(s: State, req: nat, r: nat)
    requires Inv(s)
    ensures LossStep(s, CommitChange(s, req).0, r)
  {
    if r == req && req in s.changes {
      assert GoodChange(s.rows, s.changes[req]);
      CommitSucceedsIff(s, s.changes[req]);
    }
  }

  lemma CheckTakenLoss(s: State, req: nat, r: nat)
    ensures LossStep(s, CheckTaken(s, req).0, r)
  {
  }

  lemma LoadLoss(s: State, req: nat, user: nat, username: string, reserved: bool, r: nat)
    ensures LossStep(s, LoadChange(s, req, user, username, reserved).0, r)
  {
  }

  lemma ConvergeLoss(s: State, req: nat, r: nat)
    ensures LossStep(s, Converge(s, req).0, r)
  {
  }

  lemma OtherStepsKeepChanges(s: State, step: Step)
    requires !ChangeStep(step)
    ensures Next(s, step).changes == s.changes
  {
  }

  lemma NewLossIsReal(s: State, step: Step, r: nat)
    requires Inv(s)
    ensures LossStep(s, Next(s, step), r)
  {
    if step.DoLoad? {
      LoadLoss(s, step.req, step.user, step.username, step.reserved, r);
    } else if step.DoCheckTaken? {
      CheckTakenLoss(s, step.req, r);
    } else if step.DoCommit? {
      CommitLoss(s, step.req, r);
    } else if step.DoConverge? {
      ConvergeLoss(s, step.req, r);
    } else {
      OtherStepsKeepChanges(s, step);
    }
  }

  /** What each refusal says about the account and the name at that very moment. */
  ghost predicate Deserved(s: State, step: Step, code: Code) {
    match code
    case NotFound => step.DoLoad? && step.user >= |s.users|
    case SameUsername => step.DoLoad? && IsOn(s, step.user, step.username)
    case UsernameReserved => step.DoLoad? && step.reserved && !Owns(s, step.user, step.username)
    case ChangeLimitReached =>
      step.DoLoad? && step.user < |s.users| && !Owns(s, step.user, step.username)
      && BuildQuota(RowCount(s.rows, step.user), Limit(s, step.user)).remaining == 0
    case UsernameTaken =>
      (step.DoCheckTaken? || step.DoConverge?) && step.req in s.changes
      && Exists(s, s.changes[step.req].username) && !IsOn(s, s.changes[step.req].userId, s.changes[step.req].username)
    case ChangeInProgress =>
      step.DoConverge? && step.req in s.changes && !IsOn(s, s.changes[step.req].userId, s.changes[step.req].username)
  }

  ghost predicate Owns(s: State, user: nat, username: string) {
    exists i :: 0 <= i < |s.rows| && s.rows[i].username == username && s.rows[i].userId == user
  }

  lemma OwnsIff(s: State, user: nat, username: string)
    requires Inv(s)
    ensures var o := FindName(s.rows, username);
            Owns(s, user, username) <==> o < |s.rows| && s.rows[o].userId == user
  {
  }

  lemma LoadRefusal(s: State, req: nat, user: nat, username: string, reserved: bool)
    requires Inv(s)
    ensures var reply := LoadChange(s, req, user, username, reserved).1;
            reply.Refused? ==> Deserved(s, DoLoad(req, user, username, reserved), reply.code)
  {
    OwnsIff(s, user, username);
    if user < |s.users| { assert HasActive(s.rows, user); }
  }

  lemma CheckTakenRefusal(s: State, req: nat)
    requires Inv(s)
    ensures CheckTaken(s, req).1.Refused? ==> Deserved(s, DoCheckTaken(req), CheckTaken(s, req).1.code)
  {
    if CheckTaken(s, req).1.Refused? { TakenByAnother(s, s.changes[req]); }
  }

  lemma ConvergeRefusal(s: State, req: nat)
    requires Inv(s) && RealLosses(s)
    ensures Converge(s, req).1.Refused? ==> Deserved(s, DoConverge(req), Converge(s, req).1.code)
  {
    if req in s.changes {
      assert GoodChange(s.rows, s.changes[req]);
      assert HasActive(s.rows, s.changes[req].userId);
    }
  }

  lemma RefusalIsDeserved(s: State, step: Step)
    requires Inv(s) && RealLosses(s) && Execute(s, step).1.Refused?
    ensures Deserved(s, step, Execute(s, step).1.code)
  {
    if step.DoLoad? {
      LoadRefusal(s, step.req, step.user, step.username, step.reserved);
    } else if step.DoCheckTaken? {
      CheckTakenRefusal(s, step.req);
    } else {
      ConvergeRefusal(s, step.req);
    }
  }

  lemma TakenByAnother(s: State, c: Change)
    requires Inv(s) && FindName(s.rows, c.username) < |s.rows|
    requires s.rows[FindName(s.rows, c.username)].userId != c.userId
    ensures !IsOn(s, c.userId, c.username)
  {
  }

  /** The request has lost the race for the account. */
  predicate Lost(s: State, req: nat, user: nat, username: string, active: nat) {
    Carries(s, req, user, username, active) && s.changes[req].phase == Converging(ChangeInProgress)
  }

  predicate Beaten(s: State, req: nat, user: nat, username: string, active: nat) {
    Carries(s, req, user, username, active) && HasMoved(s, user, active)
  }

  /** If a race can only be lost by being beaten, a lost one was. */
  lemma {:induction false} LostSince(states: seq<State>, k: nat, req: nat, user: nat, username: string,
                                     active: nat) returns (instant: nat)
    requires k < |states| && Lost(states[k], req, user, username, active)
    requires !Lost(states[0], req, user, username, active)
    requires forall j :: 0 <= j < |states| - 1 && Lost(states[j + 1], req, user, username, active) ==>
               Lost(states[j], req, user, username, active) || Beaten(states[j], req, user, username, active)
    ensures instant < k && Beaten(states[instant], req, user, username, active)
    ensures forall m :: instant < m <= k ==> Lost(states[m], req, user, username, active)
  {
    assert Lost(states[(k - 1) + 1], req, user, username, active);
    if Lost(states[k - 1], req, user, username, active) {
      instant := LostSince(states, k - 1, req, user, username, active);
    } else {
      instant := k - 1;
    }
  }

  lemma LostOrBeaten(steps: seq<Step>, j: nat, req: nat, user: nat, username: string, active: nat)
    requires j < |steps| && Lost(StateAt(EMPTY, steps, j + 1), req, user, username, active)
    ensures var s := StateAt(EMPTY, steps, j);
            Lost(s, req, user, username, active) || Beaten(s, req, user, username, active)
  {
    var s := StateAt(EMPTY, steps, j);
    RunKeepsInv(EMPTY, steps, j);
    LossOfOneStep(s, steps[j], req, user, username, active);
  }

  lemma LossOfOneStep(s: State, step: Step, req: nat, user: nat, username: string, active: nat)
    requires Inv(s) && Lost(Next(s, step), req, user, username, active)
    ensures Lost(s, req, user, username, active) || Beaten(s, req, user, username, active)
  {
    NewLossIsReal(s, step, req);
    StepKeepsChange(s, step, req);
  }

  /** Between its load and its answer at step k, the account left the row the request had read as active. */
  ghost predicate MovedWithin(states: seq<State>, steps: seq<Step>, begin: nat, instant: nat, k: nat, req: nat,
                              user: nat, username: string, active: nat) {
    && InFlight(states, steps, begin, k, req, user, username, active)
    && begin < instant < k
    && HasMoved(states[instant], user, active)
  }

  lemma LongerFlight(states: seq<State>, steps: seq<Step>, begin: nat, instant: nat, k: nat, req: nat, user: nat,
                     username: string, active: nat)
    requires InFlight(states, steps, begin, instant, req, user, username, active) && instant < k < |states|
    requires forall m :: instant < m <= k ==> Lost(states[m], req, user, username, active)
    ensures InFlight(states, steps, begin, k, req, user, username, active)
  {
  }

  lemma LossHasAnInstant(steps: seq<Step>, k: nat, req: nat, user: nat, username: string,
                         active: nat) returns (instant: nat)
    requires k <= |steps| && Lost(StateAt(EMPTY, steps, k), req, user, username, active)
    ensures instant < k && Beaten(StateAt(EMPTY, steps, instant), req, user, username, active)
    ensures forall m :: instant < m <= k ==> Lost(States(steps)[m], req, user, username, active)
  {
    forall j | 0 <= j < |steps| && Lost(StateAt(EMPTY, steps, j + 1), req, user, username, active)
      ensures var s := StateAt(EMPTY, steps, j);
              Lost(s, req, user, username, active) || Beaten(s, req, user, username, active)
    {
      LostOrBeaten(steps, j, req, user, username, active);
    }
    instant := LostSince(States(steps), k, req, user, username, active);
  }

  lemma RaceWasLost(steps: seq<Step>, k: nat, req: nat, user: nat, username: string, active: nat)
    requires k <= |steps| && Lost(StateAt(EMPTY, steps, k), req, user, username, active)
    ensures exists begin: nat, instant: nat ::
              MovedWithin(States(steps), steps, begin, instant, k, req, user, username, active)
  {
    var instant := LossHasAnInstant(steps, k, req, user, username, active);
    var begin := LoadedInRun(steps, instant, req, user, username, active);
    LongerFlight(States(steps), steps, begin, instant, k, req, user, username, active);
    assert MovedWithin(States(steps), steps, begin, instant, k, req, user, username, active);
  }

  lemma LostRaceIsCarried(s: State, step: Step)
    requires Execute(s, step).1.Refused? && Execute(s, step).1.code == ChangeInProgress && RealLosses(s)
    ensures var req := Execute(s, step).1.req;
            req in s.changes && Lost(s, req, s.changes[req].userId, s.changes[req].username, s.changes[req].active)
  {
  }

  lemma RunKeepsLosses(steps: seq<Step>, k: nat)
    requires k <= |steps|
    ensures Inv(StateAt(EMPTY, steps, k)) && RealLosses(StateAt(EMPTY, steps, k))
  {
    forall t, j | 0 <= j < k && Inv(t) && RealLosses(t)
      ensures Inv(Next(t, steps[j])) && RealLosses(Next(t, steps[j]))
    {
      StepKeepsInv(t, steps[j]);
      StepKeepsLosses(t, steps[j]);
    }
    RunInduction(EMPTY, steps, k, t => Inv(t) && RealLosses(t));
  }

  /**
    Whoever is told that another change was processed first lost to one: inside the request there is
    a state in which the account has left the row that was its active one when the request was loaded.
   */
  lemma EveryLostRaceHappened(steps: seq<Step>, k: nat)
    requires k < |steps| && ReplyAt(steps, k).Refused? && ReplyAt(steps, k).code == ChangeInProgress
    ensures exists begin: nat, instant: nat, user: nat, username: string, active: nat ::
              MovedWithin(States(steps), steps, begin, instant, k, ReplyAt(steps, k).req, user, username, active)
  {
    var s, req := StateAt(EMPTY, steps, k), ReplyAt(steps, k).req;
    RunKeepsLosses(steps, k);
    LostRaceIsCarried(s, steps[k]);
    RaceWasLost(steps, k, req, s.changes[req].userId, s.changes[req].username, s.changes[req].active);
  }

  /**
    In every run each refusal is true when it is given: in particular a name called taken exists and
    is not the account's active name, an account short of changes has none remaining, a registered
    account is never told that it has no name, and a change called in progress was really overtaken.
   */
  lemma EveryRefusalIsDeserved(steps: seq<Step>, k: nat)
    requires k < |steps| && ReplyAt(steps, k).Refused?
    ensures Deserved(StateAt(EMPTY, steps, k), steps[k], ReplyAt(steps, k).code)
    ensures ReplyAt(steps, k).code == ChangeInProgress ==>
              exists begin: nat, instant: nat, user: nat, username: string, active: nat ::
                MovedWithin(States(steps), steps, begin, instant, k, ReplyAt(steps, k).req, user, username, active)
  {
    RunKeepsLosses(steps, k);
    RefusalIsDeserved(StateAt(EMPTY, steps, k), steps[k]);
    if ReplyAt(steps, k).code == ChangeInProgress { EveryLostRaceHappened(steps, k); }
  }

  // ----- counting rows

  lemma {:induction false} RowCountReadsOwners(a: seq<Row>, b: seq<Row>, user: nat)
    requires |a| == |b| && forall i :: 0 <= i < |a| ==> a[i].userId == b[i].userId
    ensures RowCount(a, user) == RowCount(b, user)
  {
    if a != [] {
      RowCountReadsOwners(a[..|a| - 1], b[..|b| - 1], user);
    }
  }

  lemma RowCountAppends(rows: seq<Row>, row: Row, user: nat)
    ensures RowCount(rows + [row], user) == RowCount(rows, user) + if row.userId == user then 1 else 0
  {
  }

  lemma {:induction false} NoRowsForStrangers(rows: seq<Row>, user: nat)
    requires forall i :: 0 <= i < |rows| ==> rows[i].userId != user
    ensures RowCount(rows, user) == 0
  {
    if rows != [] {
      NoRowsForStrangers(rows[..|rows| - 1], user);
    }
  }

  // ----- serial runs

  /** A whole change with nothing in between, or one step of anything else. */
  datatype Op = Change(req: nat, user: nat, username: string, reserved: bool) | Other(step: Step)

  predicate ChangeStep(step: Step) {
    step.DoLoad? || step.DoCheckTaken? || step.DoCommit? || step.DoConverge?
  }

  predicate SerialOps(ops: seq<Op>) {
    forall i :: 0 <= i < |ops| && ops[i].Other? ==> !ChangeStep(ops[i].step)
  }

  function Read(s: State, op: Op): State
    requires op.Change?
  {
    Next(Next(s, DoLoad(op.req, op.user, op.username, op.reserved)), DoCheckTaken(op.req))
  }

  function Perform(s: State, op: Op): (State, Reply) {
    match op
    case Change(req, _, _, _) => Execute(Read(s, op), DoCommit(req))
    case Other(step) => Execute(s, step)
  }

  function SerialRun(s: State, ops: seq<Op>): State
    decreases |ops|
  {
    if ops == [] then s else SerialRun(Perform(s, ops[0]).0, ops[1..])
  }

  /** New names an operation claims for the user, and changes it grants them. */
  function Claims(s: State, op: Op, user: nat): nat {
    if op.Change? && op.user == user && Perform(s, op).1.Moved? && !Perform(s, op).1.switchedBack then 1 else 0
  }

  function Grants(s: State, op: Op, user: nat): int {
    if op.Other? && op.step.DoGrant? && user < |s.users| && user < |Perform(s, op).0.users|
    then Perform(s, op).0.users[user] - s.users[user] else 0
  }

  function Claimed(s: State, ops: seq<Op>, user: nat): nat
    decreases |ops|
  {
    if ops == [] then 0 else Claims(s, ops[0], user) + Claimed(Perform(s, ops[0]).0, ops[1..], user)
  }

  function Granted(s: State, ops: seq<Op>, user: nat): int
    decreases |ops|
  {
    if ops == [] then 0 else Grants(s, ops[0], user) + Granted(Perform(s, ops[0]).0, ops[1..], user)
  }

  /** Nothing in flight, and no account over its ceiling. */
  ghost predicate Serial(s: State) {
    && Inv(s) && s.changes == map[]
    && forall u :: 0 <= u < |s.users| ==> 0 <= s.users[u] && 1 <= RowCount(s.rows, u) <= 1 + Limit(s, u)
  }

  /** With nothing interleaved, the key of the account is free once its active row is retired. */
  lemma KeyIsFree(s: State, user: nat, except: nat)
    requires Inv(s) && FindActive(s.rows, user) < |s.rows|
    ensures var a := FindActive(s.rows, user);
            !Held(Retire(s.rows, a), s.rows[a].pubkey, except)
  {
  }

  lemma {:induction false} NameUnchangedByRetire(rows: seq<Row>, i: nat, username: string)
    requires i < |rows|
    ensures FindName(Retire(rows, i), username) == FindName(rows, username)
  {
    var r := Retire(rows, i);
    var a, b := FindName(rows, username), FindName(r, username);
    assert a < |rows| ==> r[a].username == username;
    assert b < |rows| ==> rows[b].username == username;
  }

  /** What loadState leaves of a change that passes its checks. */
  ghost predicate LoadedFrom(s: State, op: Op, c: Change)
    requires op.Change?
  {
    && op.user < |s.users| && c.active == FindActive(s.rows, op.user) < |s.rows|
    && c.userId == op.user && c.username == op.username
    && c.rowCount == RowCount(s.rows, op.user) && c.limit == Limit(s, op.user)
    && (c.owned.Some? ==> c.owned.value < |s.rows| && s.rows[c.owned.value].username == c.username
                          && s.rows[c.owned.value].userId == c.userId)
    && (c.owned.None? ==> c.rowCount - 1 < c.limit)
    && (c.owned.None? ==> var o := FindName(s.rows, op.username); o == |s.rows| || s.rows[o].userId != op.user)
  }

  lemma LoadEffect(s: State, op: Op)
    requires op.Change? && s.changes == map[]
    ensures var t := Next(s, DoLoad(op.req, op.user, op.username, op.reserved));
            && t == s.(changes := t.changes)
            && (t.changes == map[] ||
                (op.req in t.changes && t.changes == map[op.req := t.changes[op.req]]
                 && LoadedFrom(s, op, t.changes[op.req])
                 && t.changes[op.req].phase == (if t.changes[op.req].owned.Some? then Ready else Loaded)))
  {
  }

  /** After its reads, a serial change is refused and gone, or ready with its name still free or its own. */
  lemma ReadEffect(s: State, op: Op)
    requires op.Change? && s.changes == map[]
    ensures var t := Read(s, op);
            && t == s.(changes := t.changes)
            && (t.changes == map[] ||
                (op.req in t.changes && t.changes == map[op.req := t.changes[op.req]]
                 && LoadedFrom(s, op, t.changes[op.req]) && t.changes[op.req].phase == Ready
                 && (t.changes[op.req].owned.None? ==> FindName(s.rows, op.username) == |s.rows|)))
  {
    LoadEffect(s, op);
  }

  /** A ready serial change cannot meet a unique index. */
  lemma SerialWriteSucceeds(s: State, op: Op, c: Change)
    requires Inv(s) && op.Change? && LoadedFrom(s, op, c)
    requires (c.owned.None? ==> FindName(s.rows, op.username) == |s.rows|)
    ensures GoodChange(s.rows, c) && WriteChange(s.rows, c).Rows?
  {
    if c.owned.Some? {
      KeyIsFree(s, op.user, c.owned.value);
      AccountSharesKey(s.rows, |s.users|, c.owned.value, c.active);
    } else {
      KeyIsFree(s, op.user, |s.rows|);
      NameUnchangedByRetire(s.rows, c.active, c.username);
    }
  }

  lemma WriteCounts(rows: seq<Row>, c: Change, u: nat)
    requires c.active < |rows| && (c.owned.Some? ==> c.owned.value < |rows|) && WriteChange(rows, c).Rows?
    ensures RowCount(WriteChange(rows, c).rows, u) ==
            RowCount(rows, u) + if c.owned.None? && c.userId == u then 1 else 0
  {
    var r := Retire(rows, c.active);
    RowCountReadsOwners(r, rows, u);
    if c.owned.None? {
      RowCountAppends(r, WriteChange(rows, c).rows[|r|], u);
    } else {
      RowCountReadsOwners(WriteChange(rows, c).rows, rows, u);
    }
  }

  /** The reply is a success produced by writing c. */
  ghost predicate ByWriting(s: State, op: Op, t: State, reply: Reply, c: Change)
    requires op.Change?
  {
    && reply.Moved?
    && LoadedFrom(s, op, c) && GoodChange(s.rows, c) && WriteChange(s.rows, c).Rows?
    && t.rows == WriteChange(s.rows, c).rows && t.changes == map[] && t.users == s.users
    && reply.switchedBack == c.owned.Some?
    && reply.quota == BuildQuota(c.rowCount + if c.owned.Some? then 0 else 1, c.limit)
  }

  /** The answer to a serial change, and its effect, in terms of the state before it. */
  lemma PerformChange(s: State, op: Op)
    requires Serial(s) && op.Change?
    ensures var (t, reply) := Perform(s, op);
            && t.changes == map[] && t.users == s.users
            && (!reply.Moved? ==> t == s)
            && (reply.Moved? ==>
                  exists c :: ByWriting(s, op, t, reply, c))
  {
    ReadEffect(s, op);
    var r := Read(s, op);
    if r.changes != map[] {
      var c := r.changes[op.req];
      SerialWriteSucceeds(s, op, c);
      assert ByWriting(s, op, Perform(s, op).0, Perform(s, op).1, c);
    }
  }

  /** Only the claiming account grows, and it was below its ceiling. */
  lemma WithinCeiling(s: State, t: State, user: nat, grows: bool)
    requires Serial(s) && Inv(t) && t.changes == map[] && t.users == s.users
    requires forall u: nat :: RowCount(t.rows, u) == RowCount(s.rows, u) + if grows && u == user then 1 else 0
    requires user < |s.users| && (grows ==> RowCount(s.rows, user) - 1 < Limit(s, user))
    ensures Serial(t)
  {
    forall u | 0 <= u < |t.users|
      ensures 0 <= t.users[u] && 1 <= RowCount(t.rows, u) <= 1 + Limit(t, u)
    {
      assert 1 <= RowCount(s.rows, u) <= 1 + Limit(s, u);
    }
  }

  /** The facts of a written change that the ledger needs. */
  lemma WrittenFacts(s: State, op: Op, t: State, reply: Reply, c: Change)
    requires op.Change? && ByWriting(s, op, t, reply, c)
    ensures t.users == s.users && t.changes == map[] && op.user < |s.users|
    ensures !reply.switchedBack ==> RowCount(s.rows, op.user) - 1 < Limit(s, op.user)
    ensures reply.quota ==
              BuildQuota(RowCount(s.rows, op.user) + if reply.switchedBack then 0 else 1, Limit(s, op.user))
  {
  }

  /** One account's rows grow by the name claimed, and its answer agrees with the new rows. */
  lemma WrittenChange(s: State, op: Op, t: State, reply: Reply, c: Change)
    requires Serial(s) && op.Change? && ByWriting(s, op, t, reply, c)
    ensures Serial(t) && IsOn(t, op.user, op.username)
    ensures reply.quota == BuildQuota(RowCount(t.rows, op.user), Limit(t, op.user))
    ensures forall u: nat ::
              RowCount(t.rows, u) == RowCount(s.rows, u) + if !reply.switchedBack && u == op.user then 1 else 0
  {
    WrittenFacts(s, op, t, reply, c);
    WrittenCounts(s, op, t, reply, c);
    WrittenRows(s, op, t, reply, c);
    WithinCeiling(s, t, op.user, !reply.switchedBack);
  }

  lemma WrittenRows(s: State, op: Op, t: State, reply: Reply, c: Change)
    requires Inv(s) && op.Change? && ByWriting(s, op, t, reply, c)
    ensures Inv(t) && IsOn(t, op.user, op.username)
  {
    WriteKeepsRows(s, c);
  }

  lemma WrittenCounts(s: State, op: Op, t: State, reply: Reply, c: Change)
    requires op.Change? && ByWriting(s, op, t, reply, c)
    ensures forall u: nat ::
              RowCount(t.rows, u) == RowCount(s.rows, u) + if !reply.switchedBack && u == op.user then 1 else 0
  {
    forall u: nat
      ensures RowCount(t.rows, u) == RowCount(s.rows, u) + if !reply.switchedBack && u == op.user then 1 else 0
    {
      WriteCounts(s.rows, c, u);
    }
  }

  /** A serial change answers with the quota a fresh read gives, and a switch back changes no count. */
  lemma SerialChange(s: State, op: Op)
    requires Serial(s) && op.Change?
    ensures var (t, reply) := Perform(s, op);
            && Serial(t) && t.users == s.users
            && (forall u: nat :: RowCount(t.rows, u) == RowCount(s.rows, u) + Claims(s, op, u))
            && (reply.Moved? ==> op.user < |t.users| && IsOn(t, op.user, op.username)
                                 && reply.quota == BuildQuota(RowCount(t.rows, op.user), Limit(t, op.user)))
            && (!reply.Moved? ==> t == s)
  {
    var (t, reply) := Perform(s, op);
    PerformChange(s, op);
    if reply.Moved? {
      var c :| ByWriting(s, op, t, reply, c);
      WrittenChange(s, op, t, reply, c);
    }
  }

  /** What a step other than a name change does to the accounts. */
  ghost predicate Accounts(s: State, t: State, g: nat -> int) {
    && |s.users| <= |t.users|
    && (forall u: nat :: u < |s.users| ==>
          RowCount(t.rows, u) == RowCount(s.rows, u) && t.users[u] == s.users[u] + g(u))
    && (forall u: nat :: |s.users| <= u < |t.users| ==> RowCount(t.rows, u) == 1 && t.users[u] == 0)
  }

  lemma RegistrationCounts(s: State, req: nat, now: int)
    requires Serial(s)
    ensures Accounts(s, Next(s, DoRegister(req, now)), (_: nat) => 0) && Next(s, DoRegister(req, now)).changes == map[]
  {
    var t := CommitCallback(s, req, now).0;
    if t.rows != s.rows {
      var row := t.rows[|s.rows|];
      assert t.rows == s.rows + [row];
      forall u: nat
        ensures RowCount(t.rows, u) == RowCount(s.rows, u) + if row.userId == u then 1 else 0
      {
        RowCountAppends(s.rows, row, u);
      }
      NoRowsForStrangers(s.rows, |s.users|);
    }
  }

  lemma GrantCounts(s: State, pubkey: string, amount: int)
    requires Serial(s)
    ensures var t := Next(s, DoGrant(pubkey, amount));
            && t.changes == map[] && Accounts(s, t, (u: nat) => Grants(s, Other(DoGrant(pubkey, amount)), u))
            && forall u: nat :: u < |s.users| ==> t.users[u] >= s.users[u]
  {
  }

  lemma QuietCounts(s: State, step: Step)
    requires s.changes == map[] && !ChangeStep(step) && !step.DoRegister? && !step.DoGrant?
    ensures var t := Next(s, step); t.users == s.users && t.rows == s.rows && t.changes == map[]
  {
  }

  lemma OtherAccounts(s: State, step: Step)
    requires Serial(s) && !ChangeStep(step)
    ensures Next(s, step).changes == map[] && Accounts(s, Next(s, step), (u: nat) => Grants(s, Other(step), u))
    ensures forall u: nat :: Grants(s, Other(step), u) >= 0
  {
    if step.DoRegister? {
      RegistrationCounts(s, step.req, step.now);
    } else if step.DoGrant? {
      GrantCounts(s, step.pubkey, step.amount);
    } else {
      QuietCounts(s, step);
    }
  }

  lemma AccountsStaySerial(s: State, t: State, g: nat -> int)
    requires Serial(s) && Inv(t) && t.changes == map[] && Accounts(s, t, g) && forall u: nat :: g(u) >= 0
    ensures Serial(t)
  {
  }

  /** Any other step: only a registration adds a row, and only a grant moves a ceiling, upwards. */
  lemma SerialOther(s: State, step: Step)
    requires Serial(s) && !ChangeStep(step)
    ensures Serial(Next(s, step)) && Accounts(s, Next(s, step), (u: nat) => Grants(s, Other(step), u))
  {
    StepKeepsInv(s, step);
    OtherAccounts(s, step);
    AccountsStaySerial(s, Next(s, step), (u: nat) => Grants(s, Other(step), u));
  }

  /** The ledger: rows and ceilings are exactly what was claimed and granted. */
  lemma {:induction false} SerialLedger(s: State, ops: seq<Op>, user: nat)
    requires Serial(s) && SerialOps(ops)
    ensures var end := SerialRun(s, ops);
            && Serial(end) && |s.users| <= |end.users|
            && (user < |end.users| ==>
                  && RowCount(end.rows, user) ==
                      Claimed(s, ops, user) + (if user < |s.users| then RowCount(s.rows, user) else 1)
                  && end.users[user] == Granted(s, ops, user) + (if user < |s.users| then s.users[user] else 0))
    decreases |ops|
  {
    if ops != [] {
      var t := Perform(s, ops[0]).0;
      if ops[0].Change? {
        SerialChange(s, ops[0]);
        if |s.users| <= user { NoRowsForStrangers(s.rows, user); NoRowsForStrangers(t.rows, user); }
      } else {
        SerialOther(s, ops[0].step);
      }
      assert SerialOps(ops[1..]) by {
        assert forall i :: 0 <= i < |ops[1..]| ==> ops[1..][i] == ops[i + 1];
      }
      SerialLedger(t, ops[1..], user);
    }
  }

  /**
    In every serial run an account's used changes never exceed 2 plus its grants, and the remaining
    changes it is told are exactly 2 plus grants minus names claimed, with the clamp never acting.
   */
  lemma QuotaIsExact(ops: seq<Op>, user: nat)
    requires SerialOps(ops) && user < |SerialRun(EMPTY, ops).users|
    ensures var end := SerialRun(EMPTY, ops);
            var claimed, granted := Claimed(EMPTY, ops, user), Granted(EMPTY, ops, user);
            && claimed <= 2 + granted
            && BuildQuota(RowCount(end.rows, user), Limit(end, user))
               == Quota(claimed, 2 + granted, 2 + granted - claimed)
  {
    SerialLedger(EMPTY, ops, user);
  }
}
