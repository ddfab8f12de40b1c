/**
  The reconciler end to end: the coverage of the queues of module QuoteReconciler and the conclusions of
  module QuoteSnapshots together conclude every order the provider has settled, even if no webhook
  ever arrives and even if the order changes its queue while it waits.
 */
module QuoteProgress {
  import opened SwapStateMachine
  import opened SwapTables
  import opened SwapInvariant
  import opened QuoteSnapshots
  import Queues = QuoteReconciler

  // ----- an order among the queues

  /** Query k of the reconciler: queue k % 3 of batch k / 3, the table it reads and what happens around it. */
  datatype Visit = Visit(table: seq<Queues.Row>, recentExpiry: int, batch: Batch)

  /** The queue that selects a live order whose invoice expires at `expiry`. */
  function Home(row: Order, expiry: int, recentExpiry: int): (q: nat)
    ensures q < Queues.QUEUES
  {
    if row.orderId.Some? then 0 else if expiry > recentExpiry then 1 else 2
  }

  /** An order moves through the queues in this direction only. */
  function Rank(queue: nat): nat {
    if queue == 1 then 0 else if queue == 2 then 1 else 2
  }

  lemma HomeOnlyAdvances(a: Order, b: Order, expiry: int, earlier: int, later: int)
    requires Later(a, b) && earlier <= later
    ensures Rank(Home(a, expiry, earlier)) <= Rank(Home(b, expiry, later))
  {
  }

  /** The order table shows the order under this id and expiry. */
  ghost predicate Shown(table: seq<Queues.Row>, row: Order, id: nat, expiry: int) {
    exists k :: 0 <= k < |table| && table[k] == Queues.Row(id, row.quoteId, row.orderId, row.status, expiry)
  }

  lemma ShownIsQueued(table: seq<Queues.Row>, row: Order, id: nat, expiry: int, recentExpiry: int)
    requires Queues.Keyed(table) && Shown(table, row, id, expiry) && row.quoteId.Some? && !Terminal(row.status)
    ensures id in Queues.QueueIds(table, Home(row, expiry, recentExpiry), recentExpiry)
  {
    var k :| 0 <= k < |table| && table[k] == Queues.Row(id, row.quoteId, row.orderId, row.status, expiry);
    Queues.QueuedIff(table, Home(row, expiry, recentExpiry), recentExpiry, k);
  }

  /** While it is live, the order is shown to the query and settled by its snapshot. */
  ghost predicate Due(a: Store, i: nat, v: Visit, id: nat, expiry: int) {
    i < |a.orders| && !Terminal(a.orders[i].status) ==>
      && Shown(v.table, a.orders[i], id, expiry)
      && Settles(a.orders[i], v.batch.snapshot)
      && Attached(Run(a, v.batch.before), i, v.batch.snapshot.value.orderId)
  }

  /** A query on whose page a due order stands leaves it concluded. */
  lemma DueVisitConcludes(a: Store, i: nat, v: Visit, id: nat, expiry: int)
    requires Inv(a) && i < |a.orders| && Due(a, i, v, id, expiry)
    ensures RowConcluded(AfterBatch(a, i, v.batch, true), i)
  {
    if Terminal(a.orders[i].status) {
      BatchKeepsRow(a, i, v.batch, true);
    } else {
      FetchedBatchConcludes(a, i, v.batch);
    }
  }

  function Batches(visits: seq<Visit>): (b: seq<Batch>)
    ensures |b| == |visits| && forall k :: 0 <= k < |b| ==> b[k] == visits[k].batch
  {
    seq(|visits|, k requires 0 <= k < |visits| => visits[k].batch)
  }

  /** What one queue holds at each of its queries. */
  function QueueViews(visits: seq<Visit>, n: nat, queue: nat): (v: seq<seq<nat>>)
    requires |visits| == Queues.QUEUES * n && queue < Queues.QUEUES
    ensures |v| == n
    ensures forall t :: 0 <= t < n ==>
              v[t] == Queues.QueueIds(visits[3 * t + queue].table, queue, visits[3 * t + queue].recentExpiry)
  {
    seq(n, t requires 0 <= t < n =>
        Queues.QueueIds(visits[3 * t + queue].table, queue, visits[3 * t + queue].recentExpiry))
  }

  /** Whether query k fetches this id. */
  function FetchedAt(visits: seq<Visit>, n: nat, c: seq<Queues.Cursor>, id: nat, k: nat): bool
    requires |visits| == Queues.QUEUES * n && |c| == Queues.QUEUES && k < |visits|
  {
    id in Queues.PageAt(QueueViews(visits, n, k % 3), c[k % 3], Queues.Take(k % 3), k / 3)
  }

  function Fetches(visits: seq<Visit>, n: nat, c: seq<Queues.Cursor>, id: nat): (f: seq<bool>)
    requires |visits| == Queues.QUEUES * n && |c| == Queues.QUEUES
    ensures |f| == |visits| && forall k :: 0 <= k < |f| ==> f[k] == FetchedAt(visits, n, c, id, k)
  {
    seq(|visits|, k requires 0 <= k < |visits| => FetchedAt(visits, n, c, id, k))
  }

  /** The store that query k meets. */
  function StoreOf(s: Store, i: nat, visits: seq<Visit>, n: nat, c: seq<Queues.Cursor>, id: nat, k: nat): Store
    requires |visits| == Queues.QUEUES * n && |c| == Queues.QUEUES && k <= |visits|
  {
    StoreAt(s, i, Batches(visits), Fetches(visits, n, c, id), k)
  }

  /** The batches that suffice for a queue of at most `rows` rows. */
  function Laps(rows: nat, queue: nat): nat {
    2 * (rows / Queues.Take(queue) + 1)
  }

  // ----- a long enough stay in one queue

  /** The queue of the order only advances from query to query. */
  predicate Advancing(homes: seq<nat>) {
    && (forall k :: 0 <= k < |homes| ==> homes[k] < Queues.QUEUES)
    && (forall k, l :: 0 <= k <= l < |homes| ==> Rank(homes[k]) <= Rank(homes[l]))
  }

  /** Where the order is when batch t reads queue q. */
  function HomeWhen(homes: seq<nat>, q: nat, t: nat): nat {
    if 3 * t + q < |homes| then homes[3 * t + q] else 0
  }

  predicate InQueue(homes: seq<nat>, q: nat, t: nat) {
    q < 3 && 3 * t + q < |homes| && HomeWhen(homes, q, t) == q
  }

  /** From batch a to batch b the order is in queue q whenever queue q is read. */
  predicate AtHome(homes: seq<nat>, q: nat, a: nat, b: nat) {
    a <= b && 3 * b <= |homes| && q < 3 && forall t: nat :: a <= t < b ==> InQueue(homes, q, t)
  }

  lemma RankOrder(homes: seq<nat>, q: nat, t: nat, q': nat, t': nat)
    requires Advancing(homes) && 3 * t + q <= 3 * t' + q' < |homes|
    ensures Rank(HomeWhen(homes, q, t)) <= Rank(HomeWhen(homes, q', t'))
    ensures HomeWhen(homes, q', t') < Queues.QUEUES
  {
  }

  /** The order is at or past queue q whenever batch t of this range reads that queue. */
  predicate NotBefore(homes: seq<nat>, q: nat, a: nat, n: nat) {
    forall t: nat :: a <= t < n ==> Rank(HomeWhen(homes, q, t)) >= Rank(q)
  }

  predicate Past(homes: seq<nat>, q: nat, a: nat, n: nat) {
    forall t: nat :: a <= t < n ==> Rank(HomeWhen(homes, q, t)) > Rank(q)
  }

  /** Once past a queue, always past it. */
  lemma StaysPast(homes: seq<nat>, n: nat, q: nat, a: nat)
    requires |homes| == 3 * n && 0 < q < 3 && Advancing(homes)
    requires a < n ==> Rank(HomeWhen(homes, q, a)) > Rank(q)
    ensures Past(homes, q, a, n)
  {
    forall t: nat | a <= t < n
      ensures Rank(HomeWhen(homes, q, t)) > Rank(q)
    {
      RankOrder(homes, q, a, q, t);
    }
  }

  /** The first batch from `from` on at which the order is past queue q when that queue is read. */
  lemma FirstPast(homes: seq<nat>, n: nat, q: nat, from: nat) returns (a: nat)
    requires |homes| == 3 * n && from <= n && 0 < q < 3 && Advancing(homes) && NotBefore(homes, q, from, n)
    ensures from <= a <= n && AtHome(homes, q, from, a) && Past(homes, q, a, n)
  {
    a := from;
    while a < n && InQueue(homes, q, a)
      invariant from <= a <= n && AtHome(homes, q, from, a)
    {
      a := a + 1;
    }
    if a < n { RankOrder(homes, q, a, q, a); }
    StaysPast(homes, n, q, a);
  }

  /** Past queue 1 when it is read, the order is at or past queue 2 when that is read next. */
  lemma PastOneIsAtTwo(homes: seq<nat>, n: nat, a: nat)
    requires |homes| == 3 * n && Advancing(homes) && Past(homes, 1, a, n)
    ensures NotBefore(homes, 2, a, n)
  {
    forall t: nat | a <= t < n
      ensures Rank(HomeWhen(homes, 2, t)) >= Rank(2)
    {
      RankOrder(homes, 1, t, 2, t);
    }
  }

  /** Past queue 2 when it is read, the order is in queue 0 from the next batch on. */
  lemma PastTwoIsAtZero(homes: seq<nat>, n: nat, a: nat, b: nat)
    requires |homes| == 3 * n && Advancing(homes) && Past(homes, 2, a, n) && a < b <= n
    ensures AtHome(homes, 0, a + 1, b)
  {
    forall t: nat | a + 1 <= t < b
      ensures InQueue(homes, 0, t)
    {
      RankOrder(homes, 2, t - 1, 0, t);
    }
  }

  lemma ShorterStay(homes: seq<nat>, q: nat, a: nat, b: nat, later: nat)
    requires AtHome(homes, q, a, later) && a <= b <= later
    ensures AtHome(homes, q, a, b)
  {
  }

  /** In enough batches the order spends enough of them in one queue, even if it is bound in mid-batch. */
  lemma LongStay(homes: seq<nat>, n: nat, laps: seq<nat>) returns (q: nat, a: nat)
    requires |homes| == 3 * n && Advancing(homes) && |laps| == 3 && n >= laps[0] + laps[1] + laps[2] + 1
    ensures q < 3 && AtHome(homes, q, a, a + laps[q])
  {
    var x := FirstPast(homes, n, 1, 0);
    PastOneIsAtTwo(homes, n, x);
    var y := FirstPast(homes, n, 2, x);
    if x >= laps[1] {
      ShorterStay(homes, 1, 0, laps[1], x);
      return 1, 0;
    }
    if y - x >= laps[2] {
      ShorterStay(homes, 2, x, x + laps[2], y);
      return 2, x;
    }
    PastTwoIsAtZero(homes, n, y, n);
    ShorterStay(homes, 0, y + 1, y + 1 + laps[0], n);
    return 0, y + 1;
  }

  // ----- every settled order is concluded

  /** The setting of the theorem: n batches over tables in id order, with a clock that does not go back. */
  ghost predicate Scanning(visits: seq<Visit>, n: nat, c: seq<Queues.Cursor>) {
    && |visits| == Queues.QUEUES * n && |c| == Queues.QUEUES
    && (forall k :: 0 <= k < |visits| ==> Queues.Keyed(visits[k].table))
    && (forall k, l :: 0 <= k <= l < |visits| ==> visits[k].recentExpiry <= visits[l].recentExpiry)
  }

  /** The order's own queue at query k, and at every query. */
  ghost function HomeAt(s: Store, i: nat, visits: seq<Visit>, n: nat, c: seq<Queues.Cursor>, id: nat,
                        expiry: int, k: nat): nat
    requires Scanning(visits, n, c) && k < |visits|
  {
    var a := StoreOf(s, i, visits, n, c, id, k);
    if i < |a.orders| then Home(a.orders[i], expiry, visits[k].recentExpiry) else 0
  }

  ghost function Homes(s: Store, i: nat, visits: seq<Visit>, n: nat, c: seq<Queues.Cursor>, id: nat,
                       expiry: int): (h: seq<nat>)
    requires Scanning(visits, n, c)
    ensures |h| == |visits| && forall k :: 0 <= k < |h| ==> h[k] == HomeAt(s, i, visits, n, c, id, expiry, k)
  {
    seq(|visits|, k requires 0 <= k < |visits| => HomeAt(s, i, visits, n, c, id, expiry, k))
  }

  lemma HomeAdvances(s: Store, i: nat, visits: seq<Visit>, n: nat, c: seq<Queues.Cursor>, id: nat, expiry: int,
                     k: nat, l: nat)
    requires Scanning(visits, n, c) && Inv(s) && i < |s.orders| && k <= l < |visits|
    ensures HomeAt(s, i, visits, n, c, id, expiry, k) < Queues.QUEUES
    ensures Rank(HomeAt(s, i, visits, n, c, id, expiry, k)) <= Rank(HomeAt(s, i, visits, n, c, id, expiry, l))
  {
    var a, b := StoreOf(s, i, visits, n, c, id, k), StoreOf(s, i, visits, n, c, id, l);
    BatchesKeepRow(s, i, Batches(visits), Fetches(visits, n, c, id), k, l);
    HomeOnlyAdvances(a.orders[i], b.orders[i], expiry, visits[k].recentExpiry, visits[l].recentExpiry);
  }

  lemma HomesAdvance(s: Store, i: nat, visits: seq<Visit>, n: nat, c: seq<Queues.Cursor>, id: nat, expiry: int)
    requires Scanning(visits, n, c) && Inv(s) && i < |s.orders|
    ensures Advancing(Homes(s, i, visits, n, c, id, expiry))
  {
    var h := Homes(s, i, visits, n, c, id, expiry);
    forall k, l | 0 <= k <= l < |h|
      ensures h[k] < Queues.QUEUES && Rank(h[k]) <= Rank(h[l])
    {
      HomeAdvances(s, i, visits, n, c, id, expiry, k, l);
    }
  }

  /** Batch t: the queue holds at most `rows` rows, and none joins it before the next batch if the order stays. */
  ghost predicate Calm(homes: seq<nat>, visits: seq<Visit>, n: nat, rows: nat, q: nat, t: nat)
    requires |visits| == Queues.QUEUES * n && q < Queues.QUEUES && t < n
  {
    var v := QueueViews(visits, n, q);
    && |v[t]| <= rows
    && (t + 1 < n && InQueue(homes, q, t + 1) ==> Queues.Elements(v[t + 1]) <= Queues.Elements(v[t]))
  }

  /** As long as the order is in a queue, no row joins that queue, and it holds at most rows[queue] rows. */
  ghost predicate NoneJoins(homes: seq<nat>, visits: seq<Visit>, n: nat, rows: seq<nat>)
    requires |visits| == Queues.QUEUES * n && |rows| == Queues.QUEUES
  {
    forall q: nat, t: nat :: q < Queues.QUEUES && t < n && InQueue(homes, q, t) ==>
      Calm(homes, visits, n, rows[q], q, t)
  }

  /** The order stands in its own queue at query k. */
  ghost predicate Queued(homes: seq<nat>, visits: seq<Visit>, id: nat, k: nat)
    requires k < |visits| == |homes|
  {
    id in Queues.QueueIds(visits[k].table, homes[k], visits[k].recentExpiry)
  }

  /** A live order is in its own queue when that is read. */
  lemma LiveIsQueued(s: Store, i: nat, visits: seq<Visit>, n: nat, c: seq<Queues.Cursor>, id: nat, expiry: int, k: nat)
    requires Scanning(visits, n, c) && Inv(s) && i < |s.orders| && s.orders[i].quoteId.Some? && k < |visits|
    requires Due(StoreOf(s, i, visits, n, c, id, k), i, visits[k], id, expiry)
    requires !RowConcluded(StoreOf(s, i, visits, n, c, id, |visits|), i)
    ensures Queued(Homes(s, i, visits, n, c, id, expiry), visits, id, k)
  {
    BatchesKeepRow(s, i, Batches(visits), Fetches(visits, n, c, id), k, |visits|);
    BatchesKeepRow(s, i, Batches(visits), Fetches(visits, n, c, id), 0, k);
    ShownIsQueued(visits[k].table, StoreOf(s, i, visits, n, c, id, k).orders[i], id, expiry, visits[k].recentExpiry);
  }

  lemma QueuedInView(homes: seq<nat>, visits: seq<Visit>, n: nat, id: nat, q: nat, t: nat)
    requires |visits| == |homes| == Queues.QUEUES * n && q < Queues.QUEUES && t < n && InQueue(homes, q, t)
    requires Queues.Keyed(visits[3 * t + q].table) && Queued(homes, visits, id, 3 * t + q)
    ensures Queues.Ascending(QueueViews(visits, n, q)[t]) && id in QueueViews(visits, n, q)[t]
  {
    Queues.QueueHolds(visits[3 * t + q].table, q, visits[3 * t + q].recentExpiry);
  }

  /** A stay in one queue is a stretch of its scan in which the order stays. */
  lemma StayIsAStretch(homes: seq<nat>, visits: seq<Visit>, n: nat, c: seq<Queues.Cursor>, rows: seq<nat>, id: nat,
                       q: nat, a: nat, b: nat)
    requires Watched(homes, visits, n, c, rows, id) && AtHome(homes, q, a, b)
    ensures Queues.Stays(QueueViews(visits, n, q), id, a, b)
  {
    var v := QueueViews(visits, n, q);
    forall t: nat | a <= t < b
      ensures Queues.Ascending(v[t]) && id in v[t]
    {
      assert InQueue(homes, q, t);
      QueuedInView(homes, visits, n, id, q, t);
    }
    forall t: nat | a <= t < b - 1
      ensures Queues.Elements(v[t + 1]) <= Queues.Elements(v[t])
    {
      assert InQueue(homes, q, t) && InQueue(homes, q, t + 1);
      assert Calm(homes, visits, n, rows[q], q, t);
    }
  }

  lemma MoreRowsMoreLaps(few: nat, many: nat, queue: nat)
    requires few <= many
    ensures 0 < Laps(few, queue) <= Laps(many, queue)
  {
  }

  ghost predicate AllQueued(homes: seq<nat>, visits: seq<Visit>, id: nat) {
    |homes| == |visits| && forall k :: 0 <= k < |visits| ==> Queued(homes, visits, id, k)
  }

  /** Everything the search for a fetching query relies on. */
  ghost predicate Watched(homes: seq<nat>, visits: seq<Visit>, n: nat, c: seq<Queues.Cursor>, rows: seq<nat>, id: nat) {
    && Scanning(visits, n, c) && |rows| == Queues.QUEUES
    && AllQueued(homes, visits, id) && NoneJoins(homes, visits, n, rows)
  }

  /** The part of a long enough stay that the queue's own length asks for. */
  lemma StretchOfStay(homes: seq<nat>, visits: seq<Visit>, n: nat, c: seq<Queues.Cursor>, rows: seq<nat>, id: nat,
                      q: nat, a: nat) returns (b: nat)
    requires Watched(homes, visits, n, c, rows, id) && q < Queues.QUEUES && AtHome(homes, q, a, a + Laps(rows[q], q))
    ensures Queues.Stays(QueueViews(visits, n, q), id, a, b) && a < b
    ensures b - a == Laps(|QueueViews(visits, n, q)[a]|, q)
  {
    MoreRowsMoreLaps(0, rows[q], q);
    var now := RowsAtHome(homes, visits, n, rows, q, a, a + Laps(rows[q], q));
    MoreRowsMoreLaps(now, rows[q], q);
    b := a + Laps(now, q);
    ShorterStay(homes, q, a, b, a + Laps(rows[q], q));
    StayIsAStretch(homes, visits, n, c, rows, id, q, a, b);
  }

  /** The query that fetches the order during a long enough stay. */
  lemma FetchedDuringStay(homes: seq<nat>, visits: seq<Visit>, n: nat, c: seq<Queues.Cursor>, rows: seq<nat>, id: nat,
                          q: nat, a: nat) returns (k: nat)
    requires Watched(homes, visits, n, c, rows, id) && q < Queues.QUEUES && AtHome(homes, q, a, a + Laps(rows[q], q))
    ensures k < |visits| && FetchedAt(visits, n, c, id, k)
  {
    var b := StretchOfStay(homes, visits, n, c, rows, id, q, a);
    var t := FetchedInView(QueueViews(visits, n, q), c[q], q, id, a, b);
    k := OnThePage(visits, n, c, id, q, t);
  }

  lemma FetchedInView(views: seq<seq<nat>>, c: Queues.Cursor, q: nat, id: nat, a: nat, b: nat) returns (t: nat)
    requires Queues.Stays(views, id, a, b) && a < b && b - a == Laps(|views[a]|, q)
    ensures t < |views| && id in Queues.PageAt(views, c, Queues.Take(q), t)
  {
    t := Queues.FetchedInStretch(views, c, Queues.Take(q), id, a, b);
  }

  lemma RowsAtHome(homes: seq<nat>, visits: seq<Visit>, n: nat, rows: seq<nat>, q: nat, a: nat,
                   b: nat) returns (now: nat)
    requires |homes| == |visits| == Queues.QUEUES * n && |rows| == Queues.QUEUES && q < Queues.QUEUES
    requires NoneJoins(homes, visits, n, rows) && AtHome(homes, q, a, b) && a < b
    ensures now == |QueueViews(visits, n, q)[a]| <= rows[q]
  {
    assert InQueue(homes, q, a);
    assert Calm(homes, visits, n, rows[q], q, a);
    now := |QueueViews(visits, n, q)[a]|;
  }

  lemma OnThePage(visits: seq<Visit>, n: nat, c: seq<Queues.Cursor>, id: nat, q: nat, t: nat) returns (k: nat)
    requires |visits| == Queues.QUEUES * n && |c| == Queues.QUEUES && q < Queues.QUEUES && t < n
    requires id in Queues.PageAt(QueueViews(visits, n, q), c[q], Queues.Take(q), t)
    ensures k < |visits| && FetchedAt(visits, n, c, id, k)
  {
    k := 3 * t + q;
    assert k % 3 == q && k / 3 == t;
  }

  lemma LiveIsAlwaysQueued(s: Store, i: nat, visits: seq<Visit>, n: nat, c: seq<Queues.Cursor>, id: nat, expiry: int)
    requires Scanning(visits, n, c) && Inv(s) && i < |s.orders| && s.orders[i].quoteId.Some?
    requires forall k :: 0 <= k < |visits| ==> Due(StoreOf(s, i, visits, n, c, id, k), i, visits[k], id, expiry)
    requires !RowConcluded(StoreOf(s, i, visits, n, c, id, |visits|), i)
    ensures AllQueued(Homes(s, i, visits, n, c, id, expiry), visits, id)
  {
    forall k | 0 <= k < |visits|
      ensures Queued(Homes(s, i, visits, n, c, id, expiry), visits, id, k)
    {
      LiveIsQueued(s, i, visits, n, c, id, expiry, k);
    }
  }

  lemma FetchedSometime(homes: seq<nat>, visits: seq<Visit>, n: nat, c: seq<Queues.Cursor>, rows: seq<nat>,
                        id: nat) returns (k: nat)
    requires Watched(homes, visits, n, c, rows, id) && Advancing(homes)
    requires n >= Laps(rows[0], 0) + Laps(rows[1], 1) + Laps(rows[2], 2) + 1
    ensures k < |visits| && FetchedAt(visits, n, c, id, k)
  {
    var q, a := LongStay(homes, n, [Laps(rows[0], 0), Laps(rows[1], 1), Laps(rows[2], 2)]);
    k := FetchedDuringStay(homes, visits, n, c, rows, id, q, a);
  }

  /**
    An order that waits in one queue: if from batch a on, while it is live, it is in queue q for the
    laps of that queue, it is concluded. This is the sharper bound for an order that does not move.
   */
  lemma SettledDuringStay(s: Store, i: nat, visits: seq<Visit>, n: nat, c: seq<Queues.Cursor>, rows: seq<nat>,
                          id: nat, expiry: int, q: nat, a: nat)
    requires Inv(s) && i < |s.orders| && s.orders[i].quoteId.Some? && Scanning(visits, n, c)
    requires |rows| == Queues.QUEUES && q < Queues.QUEUES
    requires NoneJoins(Homes(s, i, visits, n, c, id, expiry), visits, n, rows)
    requires forall k :: 0 <= k < |visits| ==> Due(StoreOf(s, i, visits, n, c, id, k), i, visits[k], id, expiry)
    requires !RowConcluded(StoreOf(s, i, visits, n, c, id, |visits|), i) ==>
               AtHome(Homes(s, i, visits, n, c, id, expiry), q, a, a + Laps(rows[q], q))
    ensures RowConcluded(StoreOf(s, i, visits, n, c, id, |visits|), i)
  {
    if RowConcluded(StoreOf(s, i, visits, n, c, id, |visits|), i) {
      return;
    }
    LiveIsAlwaysQueued(s, i, visits, n, c, id, expiry);
    var k := FetchedDuringStay(Homes(s, i, visits, n, c, id, expiry), visits, n, c, rows, id, q, a);
    FetchedVisitConcludes(s, i, visits, n, c, id, expiry, k);
  }

  /**
    End to end: a live order whose provider snapshot settles it is concluded after as many batches as
    the laps of the three queues take together, and one more for a batch in which it is bound between
    two queries. It may change its queue on the way, from any cursors and with any webhooks, quotes
    and refund resolutions in between, as long as no row joins the queue it is in and no other row
    takes its order id.
   */
  lemma SettledOrderIsConcluded(s: Store, i: nat, visits: seq<Visit>, n: nat, c: seq<Queues.Cursor>, rows: seq<nat>,
                                id: nat, expiry: int)
    requires Inv(s) && i < |s.orders| && s.orders[i].quoteId.Some? && Scanning(visits, n, c) && |rows| == Queues.QUEUES
    requires n >= Laps(rows[0], 0) + Laps(rows[1], 1) + Laps(rows[2], 2) + 1
    requires NoneJoins(Homes(s, i, visits, n, c, id, expiry), visits, n, rows)
    requires forall k :: 0 <= k < |visits| ==> Due(StoreOf(s, i, visits, n, c, id, k), i, visits[k], id, expiry)
    ensures RowConcluded(StoreOf(s, i, visits, n, c, id, |visits|), i)
  {
    if RowConcluded(StoreOf(s, i, visits, n, c, id, |visits|), i) {
      return;
    }
    LiveIsAlwaysQueued(s, i, visits, n, c, id, expiry);
    HomesAdvance(s, i, visits, n, c, id, expiry);
    var k := FetchedSometime(Homes(s, i, visits, n, c, id, expiry), visits, n, c, rows, id);
    FetchedVisitConcludes(s, i, visits, n, c, id, expiry, k);
  }

  lemma StoreAfter(s: Store, i: nat, batches: seq<Batch>, fetched: seq<bool>, k: nat)
    requires k < |batches| == |fetched|
    ensures StoreAt(s, i, batches, fetched, k + 1) ==
            AfterBatch(StoreAt(s, i, batches, fetched, k), i, batches[k], fetched[k])
  {
  }

  lemma SoundAt(s: Store, i: nat, batches: seq<Batch>, fetched: seq<bool>, k: nat)
    requires Inv(s) && i < |s.orders| && k <= |batches| == |fetched|
    ensures Inv(StoreAt(s, i, batches, fetched, k)) && i < |StoreAt(s, i, batches, fetched, k).orders|
  {
    BatchesKeepInv(s, i, batches, fetched, k);
  }

  lemma DueBatchEnds(s: Store, i: nat, batches: seq<Batch>, fetched: seq<bool>, k: nat, v: Visit, id: nat, expiry: int)
    requires Inv(s) && i < |s.orders| && k < |batches| == |fetched| && batches[k] == v.batch && fetched[k]
    requires Due(StoreAt(s, i, batches, fetched, k), i, v, id, expiry)
    ensures RowConcluded(StoreAt(s, i, batches, fetched, k + 1), i)
  {
    SoundAt(s, i, batches, fetched, k);
    DueVisitConcludes(StoreAt(s, i, batches, fetched, k), i, v, id, expiry);
    StoreAfter(s, i, batches, fetched, k);
  }

  lemma DueBatchConcludes(s: Store, i: nat, batches: seq<Batch>, fetched: seq<bool>, k: nat, v: Visit, id: nat,
                          expiry: int)
    requires Inv(s) && i < |s.orders| && k < |batches| == |fetched| && batches[k] == v.batch && fetched[k]
    requires Due(StoreAt(s, i, batches, fetched, k), i, v, id, expiry)
    ensures RowConcluded(StoreAt(s, i, batches, fetched, |batches|), i)
  {
    DueBatchEnds(s, i, batches, fetched, k, v, id, expiry);
    ConcludedStays(s, i, batches, fetched, k + 1);
  }

  lemma FetchedVisitConcludes(s: Store, i: nat, visits: seq<Visit>, n: nat, c: seq<Queues.Cursor>, id: nat,
                              expiry: int, k: nat)
    requires Inv(s) && i < |s.orders| && Scanning(visits, n, c) && k < |visits| && FetchedAt(visits, n, c, id, k)
    requires Due(StoreOf(s, i, visits, n, c, id, k), i, visits[k], id, expiry)
    ensures RowConcluded(StoreOf(s, i, visits, n, c, id, |visits|), i)
  {
    DueBatchConcludes(s, i, Batches(visits), Fetches(visits, n, c, id), k, visits[k], id, expiry);
  }
}
