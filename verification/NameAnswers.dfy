/** What each step of a request answers, exactly, in terms of the rows and nonces it meets. */
module NameAnswers {
  import opened Common
  import opened NameRegistry
  import opened NameRegistryInvariant
  import opened NameChanges

  // ----- changing the name

  /** The account's active row bears this name. */
  ghost predicate OnName(s: State, user: nat, username: string) {
    exists i :: 0 <= i < |s.rows| && s.rows[i].userId == user && s.rows[i].active && s.rows[i].username == username
  }

  ghost predicate NameExists(s: State, username: string) {
    exists i :: 0 <= i < |s.rows| && s.rows[i].username == username
  }

  /** The rows the account has, active and retired. */
  ghost function RowsOf(rows: seq<Row>, user: nat): set<nat> {
    set i: nat | i < |rows| && rows[i].userId == user
  }

  lemma {:induction false} RowCountIs(rows: seq<Row>, user: nat)
    ensures RowCount(rows, user) == |RowsOf(rows, user)|
  {
    if rows != [] {
      var n := |rows| - 1;
      RowCountIs(rows[..n], user);
      assert RowsOf(rows, user) == RowsOf(rows[..n], user) + if rows[n].userId == user then {n} else {};
    }
  }

  lemma OnNameIff(s: State, user: nat, username: string)
    requires Inv(s)
    ensures OnName(s, user, username) <==> IsOn(s, user, username)
  {
  }

  /** An account that may still claim names: fewer claimed than two and its grants. */
  ghost predicate MayClaim(s: State, user: nat) {
    user < |s.users| && |RowsOf(s.rows, user)| - 1 < 2 + s.users[user]
  }

  lemma MayClaimIff(s: State, user: nat)
    requires user < |s.users|
    ensures MayClaim(s, user) <==> RowCount(s.rows, user) - 1 < Limit(s, user)
  {
    RowCountIs(s.rows, user);
  }

  /** Exactly the registered accounts have an active row. */
  lemma KnownIff(s: State, user: nat)
    requires Inv(s)
    ensures FindActive(s.rows, user) < |s.rows| <==> user < |s.users|
  {
    if user < |s.users| { assert HasActive(s.rows, user); }
  }

  /** The answer to a load, by what is known of the account and the name. */
  function LoadAnswer(req: nat, known: bool, on: bool, owns: bool, reserved: bool, may: bool): Reply {
    if !known then Refused(req, NotFound)
    else if on then Refused(req, SameUsername)
    else if owns then Nothing
    else if reserved then Refused(req, UsernameReserved)
    else if may then Nothing
    else Refused(req, ChangeLimitReached)
  }

  /** The same by the look-ups the load makes. */
  lemma LoadByLookUps(s: State, req: nat, user: nat, username: string, reserved: bool)
    requires req !in s.changes && (FindActive(s.rows, user) < |s.rows| ==> user < |s.users|)
    ensures Execute(s, DoLoad(req, user, username, reserved)).1 ==
            LoadAnswer(req, FindActive(s.rows, user) < |s.rows|, IsOn(s, user, username),
                       OwnsByLookUp(s, user, username), reserved,
                       user < |s.users| && RowCount(s.rows, user) - 1 < Limit(s, user))
  {
  }

  predicate OwnsByLookUp(s: State, user: nat, username: string) {
    var o := FindName(s.rows, username); o < |s.rows| && s.rows[o].userId == user
  }

  lemma LoadAnswers(s: State, req: nat, user: nat, username: string, reserved: bool)
    requires Inv(s) && req !in s.changes
    ensures Execute(s, DoLoad(req, user, username, reserved)).1 ==
            LoadAnswer(req, user < |s.users|, OnName(s, user, username), Owns(s, user, username), reserved,
                       MayClaim(s, user))
  {
    OnNameIff(s, user, username);
    OwnsIff(s, user, username);
    KnownIff(s, user);
    if user < |s.users| { MayClaimIff(s, user); }
    LoadByLookUps(s, req, user, username, reserved);
  }

  /** What the load of a change answers, exactly; a load that answers nothing lets the change go on. */
  lemma LoadAnswersIff(s: State, req: nat, user: nat, username: string, reserved: bool)
    requires Inv(s) && req !in s.changes
    ensures var reply := Execute(s, DoLoad(req, user, username, reserved)).1;
            var known, on, owns := user < |s.users|, OnName(s, user, username), Owns(s, user, username);
            && (reply == Refused(req, NotFound) <==> !known)
            && (reply == Refused(req, SameUsername) <==> known && on)
            && (reply == Refused(req, UsernameReserved) <==> known && !on && !owns && reserved)
            && (reply == Refused(req, ChangeLimitReached) <==> known && !on && !owns && !reserved && !MayClaim(s, user))
            && (reply == Nothing <==> known && !on && (owns || (!reserved && MayClaim(s, user))))
  {
    LoadAnswers(s, req, user, username, reserved);
  }

  /** What a load that goes on leaves, by its look-ups. */
  lemma LoadLeaves(s: State, req: nat, user: nat, username: string, reserved: bool)
    requires req !in s.changes && Execute(s, DoLoad(req, user, username, reserved)).1 == Nothing
    ensures var t, owns := Next(s, DoLoad(req, user, username, reserved)), OwnsByLookUp(s, user, username);
            && t.changes.Keys == s.changes.Keys + {req} && t.rows == s.rows
            && t.changes[req].userId == user && t.changes[req].username == username
            && t.changes[req].active == FindActive(s.rows, user) < |s.rows|
            && (t.changes[req].owned.Some? <==> owns) && t.changes[req].phase == if owns then Ready else Loaded
  {
  }

  /** A change that goes on remembers its account, the name asked for, and whether the account owns it. */
  lemma LoadRemembers(s: State, req: nat, user: nat, username: string, reserved: bool)
    requires Inv(s) && req !in s.changes && Execute(s, DoLoad(req, user, username, reserved)).1 == Nothing
    ensures var t := Next(s, DoLoad(req, user, username, reserved));
            && t.changes.Keys == s.changes.Keys + {req} && t.rows == s.rows
            && t.changes[req].userId == user && t.changes[req].username == username
            && (t.changes[req].owned.Some? <==> Owns(s, user, username))
            && t.changes[req].phase == (if Owns(s, user, username) then Ready else Loaded)
            && t.changes[req].active < |s.rows| && s.rows[t.changes[req].active].userId == user
            && s.rows[t.changes[req].active].active
  {
    OwnsIff(s, user, username);
    LoadLeaves(s, req, user, username, reserved);
  }

  lemma CheckTakenByLookUp(s: State, req: nat)
    requires req in s.changes && s.changes[req].phase == Loaded
    ensures var c, (t, reply) := s.changes[req], Execute(s, DoCheckTaken(req));
            var exist, owns := Exists(s, c.username), OwnsByLookUp(s, c.userId, c.username);
            && (reply == Refused(req, UsernameTaken) <==> exist && !owns)
            && (reply == Nothing <==> (exist ==> owns))
            && (reply == Nothing ==> req in t.changes && (t.changes[req].phase == Ready <==> !exist))
  {
  }

  /** The look-up of a name to be claimed: refused exactly when another account has it, active or retired. */
  lemma CheckTakenIff(s: State, req: nat)
    requires Inv(s) && req in s.changes && s.changes[req].phase == Loaded
    ensures var c, (t, reply) := s.changes[req], Execute(s, DoCheckTaken(req));
            && (reply == Refused(req, UsernameTaken) <==> NameExists(s, c.username) && !Owns(s, c.userId, c.username))
            && (reply == Nothing <==> (NameExists(s, c.username) ==> Owns(s, c.userId, c.username)))
            && (reply == Nothing ==> req in t.changes)
            && (reply == Nothing ==> (t.changes[req].phase == Ready <==> !NameExists(s, c.username)))
  {
    OwnsIff(s, s.changes[req].userId, s.changes[req].username);
    CheckTakenByLookUp(s, req);
  }

  function LoadOf(op: Op): Step
    requires op.Change?
  {
    DoLoad(op.req, op.user, op.username, op.reserved)
  }

  /** Refused at its load, a serial change is gone. */
  lemma RefusedIsGone(s: State, op: Op)
    requires Serial(s) && op.Change? && Execute(s, LoadOf(op)).1 != Nothing
    ensures Read(s, op).changes == map[]
  {
    LoadEffect(s, op);
  }

  lemma LoadedPhase(s: State, op: Op)
    requires Serial(s) && op.Change? && Execute(s, LoadOf(op)).1 == Nothing
    ensures var t := Next(s, LoadOf(op));
            && Inv(t) && op.req in t.changes && t.rows == s.rows && t.changes.Keys == {op.req}
            && t.changes[op.req].userId == op.user && t.changes[op.req].username == op.username
            && (t.changes[op.req].owned.Some? <==> Owns(s, op.user, op.username))
            && t.changes[op.req].phase == if Owns(s, op.user, op.username) then Ready else Loaded
  {
    LoadRemembers(s, op.req, op.user, op.username, op.reserved);
    StepKeepsInv(s, LoadOf(op));
  }

  /** The second read of the only change in flight. */
  lemma SecondRead(t: State, req: nat)
    requires Inv(t) && t.changes.Keys == {req} && (t.changes[req].phase == Loaded || t.changes[req].phase == Ready)
    requires t.changes[req].phase == Ready <==> Owns(t, t.changes[req].userId, t.changes[req].username)
    ensures var r, c := Next(t, DoCheckTaken(req)), t.changes[req];
            && (r.changes != map[] <==> c.phase == Ready || !NameExists(t, c.username))
            && (r.changes != map[] ==> req in r.changes && r.changes[req].owned == c.owned)
  {
    if t.changes[req].phase == Loaded {
      CheckTakenIff(t, req);
    }
  }

  lemma SameRowsSameNames(s: State, t: State, user: nat, username: string)
    requires s.rows == t.rows
    ensures Owns(s, user, username) <==> Owns(t, user, username)
    ensures NameExists(s, username) <==> NameExists(t, username)
  {
  }

  /** Past its load, a serial change is still there after its second read if it owns the name or the name is free. */
  lemma LoadedPassesIff(s: State, op: Op)
    requires Serial(s) && op.Change? && Execute(s, LoadOf(op)).1 == Nothing
    ensures var r, owns := Read(s, op), Owns(s, op.user, op.username);
            && (r.changes != map[] <==> owns || !NameExists(s, op.username))
            && (r.changes != map[] ==> op.req in r.changes && (r.changes[op.req].owned.Some? <==> owns))
  {
    var t := Next(s, LoadOf(op));
    LoadedPhase(s, op);
    SameRowsSameNames(s, t, op.user, op.username);
    SecondRead(t, op.req);
  }

  lemma ReadsPassIff(s: State, op: Op)
    requires Serial(s) && op.Change?
    ensures Read(s, op).changes != map[] <==>
              && op.user < |s.users| && !OnName(s, op.user, op.username)
              && (Owns(s, op.user, op.username)
                  || (!op.reserved && MayClaim(s, op.user) && !NameExists(s, op.username)))
    ensures Read(s, op).changes != map[] ==>
              op.req in Read(s, op).changes &&
              (Read(s, op).changes[op.req].owned.Some? <==> Owns(s, op.user, op.username))
  {
    LoadAnswersIff(s, op.req, op.user, op.username, op.reserved);
    if Execute(s, LoadOf(op)).1 == Nothing { LoadedPassesIff(s, op); } else { RefusedIsGone(s, op); }
  }

  /** What is still there after its reads commits. */
  lemma PassedCommits(s: State, op: Op)
    requires Serial(s) && op.Change?
    ensures var r, reply := Read(s, op), Perform(s, op).1;
            && (reply.Moved? <==> r.changes != map[])
            && (reply.Moved? ==> op.req in r.changes && (reply.switchedBack <==> r.changes[op.req].owned.Some?))
  {
    ReadEffect(s, op);
    var r := Read(s, op);
    if r.changes != map[] { SerialWriteSucceeds(s, op, r.changes[op.req]); }
  }

  /**
    A change with nothing in between succeeds exactly when the account is registered, not on the name,
    and owns it or may claim it: not reserved, changes left, and no row has the name. It is a switch
    back exactly when the account owns the name.
   */
  lemma SerialChangeIff(s: State, op: Op)
    requires Serial(s) && op.Change?
    ensures var reply, owns := Perform(s, op).1, Owns(s, op.user, op.username);
            && (reply.Moved? <==>
                  && op.user < |s.users| && !OnName(s, op.user, op.username)
                  && (owns || (!op.reserved && MayClaim(s, op.user) && !NameExists(s, op.username))))
            && (reply.Moved? ==> (reply.switchedBack <==> owns))
  {
    ReadsPassIff(s, op);
    PassedCommits(s, op);
  }

  /** A lost race ends in success exactly when the account is on the name asked for. */
  lemma ConvergeIff(s: State, req: nat)
    requires Inv(s) && req in s.changes && s.changes[req].phase.Converging?
    ensures var c, reply := s.changes[req], Execute(s, DoConverge(req)).1;
            && (reply.Moved? <==> OnName(s, c.userId, c.username))
            && (!reply.Moved? ==> reply == Refused(req, c.phase.cause))
  {
    var c := s.changes[req];
    assert GoodChange(s.rows, c);
    KnownIff(s, c.userId);
    OnNameIff(s, c.userId, c.username);
  }

  /** That success tells the account's quota as it is at that moment. */
  lemma ConvergedQuota(s: State, req: nat)
    requires Inv(s) && req in s.changes && Execute(s, DoConverge(req)).1.Moved?
    ensures var user, quota := s.changes[req].userId, Execute(s, DoConverge(req)).1.quota;
            && user < |s.users| && quota.limit == 2 + s.users[user] && quota.used == |RowsOf(s.rows, user)| - 1
            && quota.remaining == Max(0, quota.limit - quota.used)
  {
    var c := s.changes[req];
    assert GoodChange(s.rows, c);
    RowCountIs(s.rows, c.userId);
    assert c.active in RowsOf(s.rows, c.userId);
  }

  // ----- registration

  /** A challenge gives its nonce five minutes. */
  lemma ChallengeIssues(s: State, k1: string, now: int)
    requires k1 !in s.issued && k1 !in s.nonces
    ensures var t := Next(s, DoChallenge(k1, now));
            && t.nonces.Keys == s.nonces.Keys + {k1}
            && (forall k :: k in s.nonces ==> t.nonces[k] == s.nonces[k])
            && t.nonces[k1].expiresAt == now + 300_000 && t.nonces[k1].usedAt.None?
  {
  }

  /**
    A callback goes on exactly when its nonce is on record, unused and not past its end, and what it
    brings is well formed, signed and not reserved.
   */
  lemma StartIff(s: State, req: nat, k1: string, key: string, username: string, valid: bool, now: int)
    requires req !in s.callbacks
    ensures var (t, reply) := Execute(s, DoStart(req, k1, key, username, valid, now));
            && (reply == Nothing <==>
                  k1 in s.nonces && s.nonces[k1].usedAt.None? && now <= s.nonces[k1].expiresAt && valid)
            && (reply != Nothing ==> reply == CallbackFailed(req) && t == s)
            && (reply == Nothing ==>
                  && t.callbacks.Keys == s.callbacks.Keys + {req} && t.callbacks[req].k1 == k1
                  && t.callbacks[req].key == key && t.callbacks[req].username == username)
  {
    if Execute(s, DoStart(req, k1, key, username, valid, now)).1 != Nothing {
      assert s.callbacks - {req} == s.callbacks;
    }
  }

  /** The two look-ups fail exactly when an active row holds a text of the key, or any row holds the name. */
  lemma LookUpsFailIff(s: State, req: nat, forms: set<string>)
    requires Inv(s) && req in s.callbacks
    ensures s.callbacks[req].stage == NonceRead ==>
              (Execute(s, DoCheckKey(req, forms)).1 == CallbackFailed(req) <==>
                 exists i :: 0 <= i < |s.rows| && s.rows[i].active && s.rows[i].pubkey in forms)
    ensures s.callbacks[req].stage == KeyRead ==>
              (Execute(s, DoCheckName(req)).1 == CallbackFailed(req) <==> NameExists(s, s.callbacks[req].username))
  {
    if s.callbacks[req].stage == NonceRead {
      if i :| 0 <= i < |s.rows| && s.rows[i].active && s.rows[i].pubkey in forms {
        assert s.rows[i].activePubKey == Some(s.rows[i].pubkey);
      }
    }
  }

  /**
    A registration commits exactly when its nonce is unused and not yet at its end, no row has its name
    and none holds its key; it then uses up the nonce and adds one account with one active row.
   */
  lemma RegisterIff(s: State, req: nat, now: int)
    requires Inv(s) && req in s.callbacks && s.callbacks[req].stage == NameRead
    ensures var c, (t, reply) := s.callbacks[req], Execute(s, DoRegister(req, now));
            && (reply == Registered(req) <==>
                  && c.k1 in s.nonces && s.nonces[c.k1].usedAt.None? && now < s.nonces[c.k1].expiresAt
                  && !NameExists(s, c.username) && forall i :: 0 <= i < |s.rows| ==> s.rows[i].pubkey != c.key)
            && (reply != Registered(req) ==> t.rows == s.rows && t.users == s.users && t.nonces == s.nonces)
            && (reply == Registered(req) ==>
                  && t.users == s.users + [0] && |t.rows| == |s.rows| + 1 && t.rows[..|s.rows|] == s.rows
                  && (var row := t.rows[|s.rows|];
                      row.username == c.username && row.pubkey == c.key && row.userId == |s.users| && row.active)
                  && t.nonces.Keys == s.nonces.Keys && t.nonces[c.k1].usedAt == Some(now)
                  && forall k :: k in s.nonces && k != c.k1 ==> t.nonces[k] == s.nonces[k])
  {
    var c := s.callbacks[req];
    if !Held(s.rows, c.key, |s.rows|) { KeyIsNew(s, c.key); }
  }

  // ----- grants and purges

  ghost predicate HoldsKey(s: State, user: nat, pubkey: string) {
    exists j: nat :: j < |s.rows| && s.rows[j].userId == user && s.rows[j].active && s.rows[j].pubkey == pubkey
  }

  lemma {:induction false} FindsTheKey(rows: seq<Row>, pubkey: string, j: nat)
    requires j < |rows| && rows[j].active && rows[j].pubkey == pubkey
    ensures FindKey(rows, pubkey) <= j
  {
    if j > 0 && !(rows[0].pubkey == pubkey && rows[0].active) { FindsTheKey(rows[1..], pubkey, j - 1); }
  }

  /** The look-up by key finds the one account that holds it. */
  lemma HolderIff(s: State, user: nat, pubkey: string)
    requires Inv(s)
    ensures var i := FindKey(s.rows, pubkey); HoldsKey(s, user, pubkey) <==> i < |s.rows| && s.rows[i].userId == user
  {
    if HoldsKey(s, user, pubkey) {
      var j: nat :| j < |s.rows| && s.rows[j].userId == user && s.rows[j].active && s.rows[j].pubkey == pubkey;
      FindsTheKey(s.rows, pubkey, j);
      KeySharesAccount(s.rows, |s.users|, FindKey(s.rows, pubkey), j);
    }
  }

  /** A grant of one to five reaches the account with an active row for the key, and nobody else. */
  lemma GrantIff(s: State, pubkey: string, amount: int)
    requires Inv(s)
    ensures var t := Next(s, DoGrant(pubkey, amount));
            && t == s.(users := t.users) && |t.users| == |s.users|
            && forall u: nat :: u < |s.users| ==>
                 t.users[u] == s.users[u] + if 1 <= amount <= 5 && HoldsKey(s, u, pubkey) then amount else 0
  {
    var i := FindKey(s.rows, pubkey);
    forall u: nat | u < |s.users|
      ensures HoldsKey(s, u, pubkey) <==> i < |s.rows| && s.rows[i].userId == u
    {
      HolderIff(s, u, pubkey);
    }
  }

  /** A purge statement deletes exactly the chosen nonces whose end is more than an hour ago. */
  lemma PurgeIff(s: State, now: int, chosen: set<string>)
    ensures var t := Next(s, DoPurge(now, chosen));
            && t == s.(nonces := t.nonces)
            && (forall k :: k in t.nonces <==>
                  k in s.nonces && !(k in chosen && s.nonces[k].expiresAt + 3_600_000 < now))
            && forall k :: k in t.nonces ==> t.nonces[k] == s.nonces[k]
  {
  }
}
