/**
  Accounts, Lightning names and registration nonces (src/auth/auth.service.ts,
  src/username/username.service.ts) as a state machine. Every database read or transaction of a
  request is a step of its own, so requests interleave freely between their steps; a request in
  flight is carried in the state. A unique index refuses a transaction as a whole.
 */
module NameRegistry {
  import opened Common

  /** A row of lightning_names; a user is its index in the users table. */
  datatype Row = Row(username: string, userId: nat, pubkey: string, active: bool, activePubKey: Option<string>)

  datatype Nonce = Nonce(expiresAt: int, usedAt: Option<int>)

  datatype Code = SameUsername | UsernameReserved | ChangeLimitReached | UsernameTaken | ChangeInProgress | NotFound

  datatype Phase = Loaded | Ready | Converging(cause: Code)

  /** A username change in flight: what loadState returned, and how far the request has come. */
  datatype Change = Change(userId: nat, username: string, active: nat, owned: Option<nat>,
                           rowCount: nat, limit: int, phase: Phase)

  datatype Stage = NonceRead | KeyRead | NameRead

  /** A registration callback in flight. */
  datatype Callback = Callback(k1: string, key: string, username: string, stage: Stage)

  datatype Quota = Quota(used: int, limit: int, remaining: int)

  datatype Reply =
    | Nothing
    | Registered(req: nat) | CallbackFailed(req: nat)
    | Moved(req: nat, username: string, switchedBack: bool, quota: Quota) | Refused(req: nat, code: Code)

  datatype Success = Success(req: nat, k1: string)

  /**
    users holds the granted bonus of each account. issued and registered are the history of the run:
    every nonce ever handed out, and every successful callback in order.
   */
  datatype State = State(
    users: seq<int>, rows: seq<Row>, nonces: map<string, Nonce>,
    changes: map<nat, Change>, callbacks: map<nat, Callback>,
    issued: set<string>, registered: seq<Success>)

  const EMPTY := State([], [], map[], map[], map[], {}, [])

  const NONCE_TTL_MS := 300_000
  const PURGE_GRACE_MS := 3_600_000
  const DEFAULT_NEW_NAME_ALLOWANCE := 2
  const MAX_GRANT_PER_CALL := 5

  // ----- look-ups

  function FindName(rows: seq<Row>, username: string): (i: nat)
    ensures i <= |rows|
    ensures i < |rows| ==> rows[i].username == username
    ensures forall j :: 0 <= j < i ==> rows[j].username != username
  {
    if rows == [] || rows[0].username == username then 0 else 1 + FindName(rows[1..], username)
  }

  function FindActive(rows: seq<Row>, user: nat): (i: nat)
    ensures i <= |rows|
    ensures i < |rows| ==> rows[i].userId == user && rows[i].active
    ensures forall j :: 0 <= j < i ==> !(rows[j].userId == user && rows[j].active)
  {
    if rows == [] || (rows[0].userId == user && rows[0].active) then 0 else 1 + FindActive(rows[1..], user)
  }

  /** The active row of a public key, as the support endpoints look it up. */
  function FindKey(rows: seq<Row>, pubkey: string): (i: nat)
    ensures i <= |rows|
    ensures i < |rows| ==> rows[i].pubkey == pubkey && rows[i].active
  {
    if rows == [] || (rows[0].pubkey == pubkey && rows[0].active) then 0 else 1 + FindKey(rows[1..], pubkey)
  }

  function RowCount(rows: seq<Row>, user: nat): nat {
    if rows == [] then 0
    else RowCount(rows[..|rows| - 1], user) + if rows[|rows| - 1].userId == user then 1 else 0
  }

  /** The activePubKey index: some row other than `except` holds this key. */
  predicate Held(rows: seq<Row>, pubkey: string, except: nat) {
    exists j :: 0 <= j < |rows| && j != except && rows[j].activePubKey == Some(pubkey)
  }

  predicate HeldInAnyForm(rows: seq<Row>, forms: set<string>) {
    exists j :: 0 <= j < |rows| && rows[j].activePubKey.Some? && rows[j].activePubKey.value in forms
  }

  /** buildQuota. */
  function BuildQuota(rowCount: nat, limit: int): Quota {
    var used := Max(0, rowCount - 1);
    Quota(used, limit, Max(0, limit - used))
  }

  function Limit(s: State, user: nat): int
    requires user < |s.users|
  {
    DEFAULT_NEW_NAME_ALLOWANCE + s.users[user]
  }

  // ----- registration

  function Fail(s: State, req: nat): (r: (State, Reply))
    ensures r.0 == s.(callbacks := r.0.callbacks) && r.1 == CallbackFailed(req)
  {
    (s.(callbacks := s.callbacks - {req}), CallbackFailed(req))
  }

  function Challenge(s: State, k1: string, now: int): (r: (State, Reply))
    ensures r.0 == s.(nonces := r.0.nonces, issued := r.0.issued) && r.1 == Nothing
  {
    if k1 in s.issued || k1 in s.nonces then (s, Nothing)
    else (s.(nonces := s.nonces[k1 := Nonce(now + NONCE_TTL_MS, None)], issued := s.issued + {k1}), Nothing)
  }

  /** The nonce read, then the checks that need no database: formats, signature, reserved name. */
  function StartCallback(s: State, req: nat, k1: string, key: string, username: string, valid: bool,
                         now: int): (r: (State, Reply))
    ensures r.0 == s.(callbacks := r.0.callbacks) && (r.1 == Nothing || r.1 == CallbackFailed(req))
  {
    if req in s.callbacks then (s, Nothing)
    else if k1 !in s.nonces || s.nonces[k1].usedAt.Some? || s.nonces[k1].expiresAt < now || !valid then
      Fail(s, req)
    else (s.(callbacks := s.callbacks[req := Callback(k1, key, username, NonceRead)]), Nothing)
  }

  function CheckKey(s: State, req: nat, forms: set<string>): (r: (State, Reply))
    ensures r.0 == s.(callbacks := r.0.callbacks) && (r.1 == Nothing || r.1 == CallbackFailed(req))
  {
    if req !in s.callbacks || s.callbacks[req].stage != NonceRead then (s, Nothing)
    else if HeldInAnyForm(s.rows, forms) then Fail(s, req)
    else (s.(callbacks := s.callbacks[req := s.callbacks[req].(stage := KeyRead)]), Nothing)
  }

  function CheckName(s: State, req: nat): (r: (State, Reply))
    ensures r.0 == s.(callbacks := r.0.callbacks) && (r.1 == Nothing || r.1 == CallbackFailed(req))
  {
    if req !in s.callbacks || s.callbacks[req].stage != KeyRead then (s, Nothing)
    else if FindName(s.rows, s.callbacks[req].username) < |s.rows| then Fail(s, req)
    else (s.(callbacks := s.callbacks[req := s.callbacks[req].(stage := NameRead)]), Nothing)
  }

  predicate Consumable(s: State, k1: string, now: int) {
    k1 in s.nonces && s.nonces[k1].usedAt.None? && s.nonces[k1].expiresAt > now
  }

  predicate RegistrationCollides(rows: seq<Row>, username: string, key: string) {
    FindName(rows, username) < |rows| || Held(rows, key, |rows|)
  }

  /** The transaction: consume the nonce, create the user, bind the name; any failure rolls it back. */
  function CommitCallback(s: State, req: nat, now: int): (r: (State, Reply))
    ensures r.0 ==
              s.(nonces := r.0.nonces, users := r.0.users, rows := r.0.rows, callbacks := r.0.callbacks,
                 registered := r.0.registered)
    ensures !r.1.Registered? ==> r.0 == s.(callbacks := r.0.callbacks)
  {
    if req !in s.callbacks || s.callbacks[req].stage != NameRead then (s, Nothing)
    else
      var c := s.callbacks[req];
      if !Consumable(s, c.k1, now) || RegistrationCollides(s.rows, c.username, c.key) then Fail(s, req)
      else
        (s.(nonces := s.nonces[c.k1 := s.nonces[c.k1].(usedAt := Some(now))],
            users := s.users + [0],
            rows := s.rows + [Row(c.username, |s.users|, c.key, true, Some(c.key))],
            callbacks := s.callbacks - {req},
            registered := s.registered + [Success(req, c.k1)]),
         Registered(req))
  }

  /** The rows a purge at `now` may delete: past expiry and grace. */
  function Purgeable(nonces: map<string, Nonce>, now: int): set<string> {
    set k | k in nonces && nonces[k].expiresAt < now - PURGE_GRACE_MS
  }

  /** One purge statement: deletes the chosen rows among the purgeable ones. */
  function Purge(s: State, now: int, chosen: set<string>): (r: (State, Reply))
    ensures r.0 == s.(nonces := r.0.nonces) && r.1 == Nothing
  {
    (s.(nonces := s.nonces - (chosen * Purgeable(s.nonces, now))), Nothing)
  }

  // ----- changing the name

  function Refuse(s: State, req: nat, code: Code): (r: (State, Reply))
    ensures r.0 == s.(changes := s.changes - {req}) && r.1.Refused?
  {
    (s.(changes := s.changes - {req}), Refused(req, code))
  }

  /** loadState and the checks on it. */
  function LoadChange(s: State, req: nat, user: nat, username: string, reserved: bool): (r: (State, Reply))
    ensures r.0 == s.(changes := r.0.changes) && (r.1 == Nothing || r.1.Refused?)
    ensures forall q :: q in r.0.changes && q != req ==> q in s.changes && r.0.changes[q] == s.changes[q]
  {
    if req in s.changes then (s, Nothing)
    else
      var a := FindActive(s.rows, user);
      if user >= |s.users| || a == |s.rows| then Refuse(s, req, NotFound)
      else if s.rows[a].username == username then Refuse(s, req, SameUsername)
      else
        var o := FindName(s.rows, username);
        var owns := o < |s.rows| && s.rows[o].userId == user;
        var count := RowCount(s.rows, user);
        if !owns && reserved then Refuse(s, req, UsernameReserved)
        else if !owns && count - 1 >= Limit(s, user) then Refuse(s, req, ChangeLimitReached)
        else
          (s.(changes := s.changes[req := Change(user, username, a, if owns then Some(o) else None,
                                                 count, Limit(s, user), if owns then Ready else Loaded)]),
           Nothing)
  }

  /** The advisory look-up of a name the account does not own. */
  function CheckTaken(s: State, req: nat): (r: (State, Reply))
    ensures r.0 == s.(changes := r.0.changes) && (r.1 == Nothing || r.1.Refused?)
    ensures forall q :: q in r.0.changes && q != req ==> q in s.changes && r.0.changes[q] == s.changes[q]
    ensures req in r.0.changes ==>
              req in s.changes && r.0.changes[req] == s.changes[req].(phase := r.0.changes[req].phase)
  {
    if req !in s.changes || s.changes[req].phase != Loaded then (s, Nothing)
    else
      var c := s.changes[req];
      var i := FindName(s.rows, c.username);
      if i == |s.rows| then (s.(changes := s.changes[req := c.(phase := Ready)]), Nothing)
      else if s.rows[i].userId != c.userId then Refuse(s, req, UsernameTaken)
      else (s.(changes := s.changes[req := c.(phase := Converging(UsernameTaken))]), Nothing)
  }

  function Retire(rows: seq<Row>, i: nat): (r: seq<Row>)
    requires i < |rows|
    ensures |r| == |rows|
  {
    rows[i := rows[i].(active := false, activePubKey := None)]
  }

  datatype Written = Rows(rows: seq<Row>) | Violation(cause: Code)

  /** The transaction: retire the row that was active when read, then activate or create. */
  function WriteChange(rows: seq<Row>, c: Change): Written
    requires c.active < |rows| && (c.owned.Some? ==> c.owned.value < |rows|)
  {
    var r := Retire(rows, c.active);
    match c.owned
    case Some(o) =>
      if Held(r, r[o].pubkey, o) then Violation(ChangeInProgress)
      else Rows(r[o := r[o].(active := true, activePubKey := Some(r[o].pubkey))])
    case None =>
      var key := rows[c.active].pubkey;
      if FindName(r, c.username) < |r| then Violation(UsernameTaken)
      else if Held(r, key, |r|) then Violation(ChangeInProgress)
      else Rows(r + [Row(c.username, c.userId, key, true, Some(key))])
  }

  function CommitChange(s: State, req: nat): (r: (State, Reply))
    ensures r.0 == s.(rows := r.0.rows, changes := r.0.changes) && (r.1 == Nothing || r.1.Moved?)
    ensures forall q :: q in r.0.changes && q != req ==> q in s.changes && r.0.changes[q] == s.changes[q]
    ensures req in r.0.changes ==>
              req in s.changes && r.0.changes[req] == s.changes[req].(phase := r.0.changes[req].phase)
  {
    if req !in s.changes || s.changes[req].phase != Ready then (s, Nothing)
    else
      var c := s.changes[req];
      if c.active >= |s.rows| || (c.owned.Some? && c.owned.value >= |s.rows|) then (s, Nothing)
      else
        match WriteChange(s.rows, c)
        case Violation(cause) => (s.(changes := s.changes[req := c.(phase := Converging(cause))]), Nothing)
        case Rows(rows) =>
          (s.(rows := rows, changes := s.changes - {req}),
           Moved(req, c.username, c.owned.Some?,
                 BuildQuota(c.rowCount + if c.owned.Some? then 0 else 1, c.limit)))
  }

  /** convergedResponse: a lost race is a success when the account is on the requested name. */
  function Converge(s: State, req: nat): (r: (State, Reply))
    ensures r.0 == s.(changes := r.0.changes) && (r.1.Moved? || r.1.Refused? || r.1 == Nothing)
    ensures forall q :: q in r.0.changes && q != req ==> q in s.changes && r.0.changes[q] == s.changes[q]
    ensures req in r.0.changes ==>
              req in s.changes && r.0.changes[req] == s.changes[req].(phase := r.0.changes[req].phase)
  {
    if req !in s.changes || !s.changes[req].phase.Converging? then (s, Nothing)
    else
      var c := s.changes[req];
      var a := FindActive(s.rows, c.userId);
      if c.userId >= |s.users| || a == |s.rows| then Refuse(s, req, NotFound)
      else if s.rows[a].username != c.username then Refuse(s, req, c.phase.cause)
      else (s.(changes := s.changes - {req}),
            Moved(req, c.username, c.owned.Some?, BuildQuota(RowCount(s.rows, c.userId), Limit(s, c.userId))))
  }

  /** grantExtraChanges, behind the bounds of its request body. */
  function Grant(s: State, pubkey: string, amount: int): (r: (State, Reply))
    ensures r.0 == s.(users := r.0.users) && |r.0.users| == |s.users| && r.1 == Nothing
  {
    var i := FindKey(s.rows, pubkey);
    if !(1 <= amount <= MAX_GRANT_PER_CALL) || i == |s.rows| || s.rows[i].userId >= |s.users| then (s, Nothing)
    else (s.(users := s.users[s.rows[i].userId := s.users[s.rows[i].userId] + amount]), Nothing)
  }

  // ----- runs

  datatype Step =
    | DoChallenge(k1: string, now: int)
    | DoStart(req: nat, k1: string, key: string, username: string, valid: bool, now: int)
    | DoCheckKey(req: nat, forms: set<string>)
    | DoCheckName(req: nat)
    | DoRegister(req: nat, now: int)
    | DoPurge(now: int, chosen: set<string>)
    | DoLoad(req: nat, user: nat, username: string, reserved: bool)
    | DoCheckTaken(req: nat)
    | DoCommit(req: nat)
    | DoConverge(req: nat)
    | DoGrant(pubkey: string, amount: int)

  function Execute(s: State, step: Step): (State, Reply) {
    match step
    case DoChallenge(k1, now) => Challenge(s, k1, now)
    case DoStart(req, k1, key, username, valid, now) => StartCallback(s, req, k1, key, username, valid, now)
    case DoCheckKey(req, forms) => CheckKey(s, req, forms)
    case DoCheckName(req) => CheckName(s, req)
    case DoRegister(req, now) => CommitCallback(s, req, now)
    case DoPurge(now, chosen) => Purge(s, now, chosen)
    case DoLoad(req, user, username, reserved) => LoadChange(s, req, user, username, reserved)
    case DoCheckTaken(req) => CheckTaken(s, req)
    case DoCommit(req) => CommitChange(s, req)
    case DoConverge(req) => Converge(s, req)
    case DoGrant(pubkey, amount) => Grant(s, pubkey, amount)
  }

  function Next(s: State, step: Step): State {
    Execute(s, step).0
  }

  /** The state that step k of a run meets. */
  function StateAt(s: State, steps: seq<Step>, k: nat): State
    requires k <= |steps|
  {
    if k == 0 then s else Next(StateAt(s, steps, k - 1), steps[k - 1])
  }

  function Run(s: State, steps: seq<Step>): State {
    StateAt(s, steps, |steps|)
  }

  /** The states a run from the empty tables goes through. */
  function States(steps: seq<Step>): seq<State> {
    seq(|steps| + 1, k requires 0 <= k <= |steps| => StateAt(EMPTY, steps, k))
  }

  /** What holds at the start and is kept by every step of a run holds in each of its states. */
  lemma {:induction false} RunInduction(s: State, steps: seq<Step>, k: nat, P: State -> bool)
    requires k <= |steps| && P(s)
    requires forall t, j :: 0 <= j < k && P(t) ==> P(Next(t, steps[j]))
    ensures P(StateAt(s, steps, k))
  {
    if k > 0 {
      RunInduction(s, steps, k - 1, P);
    }
  }
}
