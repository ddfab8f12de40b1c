/** The account tables as they are written: registration, name change and grant transactions, and the purge loop. */
module AccountService {
  import opened Common
  import opened NameRegistry

  const PURGE_BATCH_SIZE: nat := 1000
  const PURGE_MAX_BATCHES: nat := 1000

  lemma PurgeableShrinks(nonces: map<string, Nonce>, found: set<string>, now: int)
    requires found <= Purgeable(nonces, now)
    ensures Purgeable(nonces - found, now) == Purgeable(nonces, now) - found
    ensures |Purgeable(nonces - found, now)| == |Purgeable(nonces, now)| - |found|
  {
  }

  /** The chosen rows, `deleted` many, are gone from the purgeable ones, and nothing else is. */
  ghost predicate Deleted(before: map<string, Nonce>, after: map<string, Nonce>, chosen: set<string>, deleted: nat,
                          now: int) {
    && chosen <= Purgeable(before, now) && |chosen| == deleted
    && after == before - chosen
    && Purgeable(after, now) == Purgeable(before, now) - chosen
    && |Purgeable(after, now)| == |Purgeable(before, now)| - deleted
  }

  lemma DeleteMore(before: map<string, Nonce>, after: map<string, Nonce>, chosen: set<string>, deleted: nat, now: int,
                   found: set<string>)
    requires Deleted(before, after, chosen, deleted, now) && found <= Purgeable(after, now)
    ensures Deleted(before, after - found, chosen + found, deleted + |found|, now)
  {
    PurgeableShrinks(after, found, now);
    assert chosen !! found;
    assert before - chosen - found == before - (chosen + found);
  }

  class Database {
    var users: seq<int>
    var rows: seq<Row>
    var nonces: map<string, Nonce>

    /** The registry state whose tables are these; requests in flight and history come from s. */
    ghost function Tables(s: State): State
      reads this
    {
      s.(users := users, rows := rows, nonces := nonces)
    }

    constructor ()
      ensures Tables(EMPTY) == EMPTY
    {
      users, rows, nonces := [], [], map[];
    }

    method GenerateAuthChallenge(k1: string, now: int, ghost s: State)
      requires s == Tables(s) && k1 !in s.issued
      modifies this`nonces
      ensures var t := Next(s, DoChallenge(k1, now)); t == Tables(t)
    {
      if k1 !in nonces {
        nonces := nonces[k1 := Nonce(now + NONCE_TTL_MS, None)];
      }
    }

    /** The registration transaction: whatever fails, the tables are as before. */
    method BindUsername(c: Callback, now: int, ghost s: State, ghost req: nat) returns (ok: bool)
      requires s == Tables(s) && req in s.callbacks && s.callbacks[req] == c && c.stage == NameRead
      modifies this
      ensures var (t, reply) := CommitCallback(s, req, now); t == Tables(t) && ok == reply.Registered?
    {
      var before := nonces;
      if c.k1 !in nonces || nonces[c.k1].usedAt.Some? || nonces[c.k1].expiresAt <= now {
        return false;
      }
      nonces := nonces[c.k1 := nonces[c.k1].(usedAt := Some(now))];
      users := users + [0];
      if FindName(rows, c.username) < |rows| || Held(rows, c.key, |rows|) {
        nonces := before;
        users := users[..|users| - 1];
        return false;
      }
      rows := rows + [Row(c.username, |users| - 1, c.key, true, Some(c.key))];
      return true;
    }

    /** The name-change transaction; None when it committed, else the index that refused it. */
    method ChangeUsername(c: Change, ghost s: State, ghost req: nat) returns (violation: Option<Code>)
      requires s == Tables(s) && req in s.changes && s.changes[req] == c && c.phase == Ready
      requires c.active < |rows| && (c.owned.Some? ==> c.owned.value < |rows|)
      modifies this`rows
      ensures var (t, reply) := CommitChange(s, req); t == Tables(t) && (violation.None? <==> reply.Moved?)
      ensures violation.Some? ==> CommitChange(s, req).0.changes[req].phase == Converging(violation.value)
    {
      var before := rows;
      var key := rows[c.active].pubkey;
      rows := rows[c.active := rows[c.active].(active := false, activePubKey := None)];
      if c.owned.Some? {
        var o := c.owned.value;
        if Held(rows, rows[o].pubkey, o) {
          rows := before;
          return Some(ChangeInProgress);
        }
        rows := rows[o := rows[o].(active := true, activePubKey := Some(rows[o].pubkey))];
        return None;
      }
      if FindName(rows, c.username) < |rows| {
        rows := before;
        return Some(UsernameTaken);
      }
      if Held(rows, key, |rows|) {
        rows := before;
        return Some(ChangeInProgress);
      }
      rows := rows + [Row(c.username, c.userId, key, true, Some(key))];
      return None;
    }

    method GrantExtraChanges(pubkey: string, amount: int, ghost s: State)
      requires s == Tables(s)
      modifies this`users
      ensures var t := Next(s, DoGrant(pubkey, amount)); t == Tables(t)
    {
      if amount < 1 || amount > MAX_GRANT_PER_CALL {
        return;
      }
      var i := FindKey(rows, pubkey);
      if i == |rows| || rows[i].userId >= |users| {
        return;
      }
      users := users[rows[i].userId := users[rows[i].userId] + amount];
    }

    /** findMany with a limit: some purgeable rows, as many as there are up to one batch. */
    method SelectBatch(now: int) returns (batch: set<string>)
      ensures batch <= Purgeable(nonces, now) && |batch| == Min(|Purgeable(nonces, now)|, 1000)
    {
      batch := {};
      var rest := Purgeable(nonces, now);
      while rest != {} && |batch| < PURGE_BATCH_SIZE
        invariant batch !! rest && batch + rest == Purgeable(nonces, now)
        invariant |batch| + |rest| == |Purgeable(nonces, now)| && |batch| <= PURGE_BATCH_SIZE
        decreases |rest|
      {
        var k :| k in rest;
        batch, rest := batch + {k}, rest - {k};
      }
    }

    /** The batch loop: as many rows as there are, up to a thousand batches of a thousand. */
    method DeleteBatches(now: int) returns (deleted: nat, ghost chosen: set<string>)
      modifies this`nonces
      ensures Deleted(old(nonces), nonces, chosen, deleted, now)
      ensures deleted == Min(|Purgeable(old(nonces), now)|, PURGE_BATCH_SIZE * PURGE_MAX_BATCHES)
    {
      deleted, chosen := 0, {};
      var batch := 0;
      var draining := true;
      while batch < PURGE_MAX_BATCHES && draining
        invariant batch <= PURGE_MAX_BATCHES && Deleted(old(nonces), nonces, chosen, deleted, now)
        invariant draining ==> deleted == batch * PURGE_BATCH_SIZE
        invariant !draining ==> |Purgeable(nonces, now)| == 0 && deleted <= batch * PURGE_BATCH_SIZE
        decreases PURGE_MAX_BATCHES - batch, draining
      {
        var found := SelectBatch(now);
        if |found| == 0 {
          draining := false;
        } else {
          DeleteMore(old(nonces), nonces, chosen, deleted, now, found);
          nonces := nonces - found;
          chosen := chosen + found;
          deleted := deleted + |found|;
          batch := batch + 1;
          draining := |found| == PURGE_BATCH_SIZE;
        }
      }
    }

    /** Undisturbed, a purge deletes and reports the backlog, up to a million rows, and is one purge step. */
    method PurgeExpired(now: int, ghost s: State) returns (deleted: nat)
      requires s == Tables(s)
      modifies this`nonces
      ensures deleted == Min(|Purgeable(old(nonces), now)|, 1_000_000)
      ensures |Purgeable(nonces, now)| == |Purgeable(old(nonces), now)| - deleted
      ensures exists chosen :: |chosen| == deleted && chosen <= Purgeable(old(nonces), now)
                               && Next(s, DoPurge(now, chosen)) == Tables(s)
    {
      ghost var chosen;
      deleted, chosen := DeleteBatches(now);
      PurgesTheChosen(s, now, chosen);
    }
  }

  lemma PurgesTheChosen(s: State, now: int, chosen: set<string>)
    requires chosen <= Purgeable(s.nonces, now)
    ensures Next(s, DoPurge(now, chosen)) == s.(nonces := s.nonces - chosen)
  {
    assert chosen * Purgeable(s.nonces, now) == chosen;
  }
}
