/**
  The quote reconciler of src/swap/quote-reconciler.service.ts: three queues over the order table,
  each read one page at a time behind its own cursor.
 */
module QuoteReconciler {
  import opened Common
  import opened SwapStateMachine

  // ----- the queues

  /** The columns the reconciler queries; ids stand for the ordered string ids. */
  datatype Row = Row(id: nat, quoteId: Option<string>, orderId: Option<string>, status: Status, expiresAt: int)

  const SETTLEMENT_GRACE_MS := 21_600_000
  const QUEUES: nat := 3

  predicate Candidate(r: Row) {
    r.quoteId.Some? && !Terminal(r.status)
  }

  /** Active orders; unpaid quotes still fresh or recently expired; older unpaid quotes. */
  predicate Selects(queue: nat, r: Row, recentExpiry: int) {
    if queue == 0 then r.orderId.Some?
    else if queue == 1 then r.orderId.None? && r.expiresAt > recentExpiry
    else queue == 2 && r.orderId.None? && r.expiresAt <= recentExpiry
  }

  function Take(queue: nat): nat {
    if queue == 2 then 5 else 20
  }

  /** The ids of one queue, in table order. */
  function QueueIds(table: seq<Row>, queue: nat, recentExpiry: int): seq<nat> {
    if table == [] then []
    else
      var r := table[|table| - 1];
      QueueIds(table[..|table| - 1], queue, recentExpiry)
      + if Candidate(r) && Selects(queue, r, recentExpiry) then [r.id] else []
  }

  // ----- one page

  type Cursor = Option<nat>

  predicate Beyond(c: Cursor, id: nat) {
    c.None? || id > c.value
  }

  function After(ids: seq<nat>, c: Cursor): seq<nat> {
    if ids == [] then []
    else After(ids[..|ids| - 1], c) + if Beyond(c, ids[|ids| - 1]) then [ids[|ids| - 1]] else []
  }

  /** The first `take` ids beyond the cursor. */
  function Page(ids: seq<nat>, c: Cursor, take: nat): seq<nat> {
    var a := After(ids, c);
    if |a| <= take then a else a[..take]
  }

  /** A full page moves the cursor to its last id; a short one starts over. */
  function Advance(page: seq<nat>, take: nat): Cursor
    requires take > 0
  {
    if |page| == take then Some(page[|page| - 1]) else None
  }

  predicate Ascending(ids: seq<nat>) {
    forall i, j :: 0 <= i < j < |ids| ==> ids[i] < ids[j]
  }

  lemma {:induction false} AfterSelects(ids: seq<nat>, c: Cursor)
    requires Ascending(ids)
    ensures Ascending(After(ids, c))
    ensures forall x :: x in After(ids, c) <==> x in ids && Beyond(c, x)
  {
    if ids != [] {
      var init, last := ids[..|ids| - 1], ids[|ids| - 1];
      AfterSelects(init, c);
      assert ids == init + [last];
      var a := After(init, c);
      forall i | 0 <= i < |a|
        ensures a[i] < last
      {
        assert a[i] in init;
        var k :| 0 <= k < |init| && init[k] == a[i];
        assert ids[k] < ids[|ids| - 1];
      }
    }
  }

  lemma {:induction false} RankIn(a: seq<nat>, k: nat)
    requires Ascending(a) && k < |a|
    ensures |set y | y in a && y < a[k]| == k
  {
    assert Ascending(a[..k]);
    AscendingSize(a[..k]);
    forall y | y in a && y < a[k] ensures y in a[..k] {
      var j :| 0 <= j < |a| && a[j] == y;
      assert a[..k][j] == y;
    }
    forall y | y in a[..k] ensures y in a && y < a[k] {
      var j :| 0 <= j < k && a[..k][j] == y;
      assert a[j] < a[k];
    }
    assert (set y | y in a && y < a[k]) == Elements(a[..k]);
  }

  /** A page holds exactly the rows of its queue beyond the cursor that fewer than `take` such rows precede. */
  lemma PageIff(ids: seq<nat>, c: Cursor, take: nat, x: nat)
    requires Ascending(ids)
    ensures x in Page(ids, c, take) <==>
              && x in ids && (c.None? || x > c.value)
              && |set y | y in ids && (c.None? || y > c.value) && y < x| < take
  {
    AfterSelects(ids, c);
    var a := After(ids, c);
    if x in a {
      var k :| 0 <= k < |a| && a[k] == x;
      RankIn(a, k);
      assert (set y | y in ids && (c.None? || y > c.value) && y < x) == (set y | y in a && y < a[k]);
      InPrefixIff(a, take, k);
    }
  }

  lemma InPrefixIff(a: seq<nat>, take: nat, k: nat)
    requires Ascending(a) && k < |a|
    ensures a[k] in (if |a| <= take then a else a[..take]) <==> k < take
  {
    if take < |a| {
      if k < take { assert a[..take][k] == a[k]; }
      if a[k] in a[..take] {
        var j :| 0 <= j < take && a[..take][j] == a[k];
        if j < k { assert a[j] < a[k]; }
      }
    }
  }

  // ----- sizes of what lies ahead of the cursor

  ghost function Ahead(ids: seq<nat>, c: Cursor): set<nat> {
    set x | x in ids && Beyond(c, x)
  }

  ghost function AheadUpTo(ids: seq<nat>, c: Cursor, r: nat): set<nat> {
    set x | x in ids && Beyond(c, x) && x <= r
  }

  ghost function Elements(s: seq<nat>): set<nat> {
    set x | x in s
  }

  lemma {:induction false} AscendingSize(s: seq<nat>)
    requires Ascending(s)
    ensures |Elements(s)| == |s|
  {
    if s != [] {
      var init, last := s[..|s| - 1], s[|s| - 1];
      AscendingSize(init);
      assert Elements(s) == Elements(init) + {last};
    }
  }

  lemma DisjointSize(a: set<nat>, b: set<nat>, whole: set<nat>)
    requires a !! b && a + b <= whole
    ensures |a| + |b| <= |whole|
  {
    SubsetSize(a + b, whole);
  }

  lemma PageShape(ids: seq<nat>, c: Cursor, take: nat)
    requires Ascending(ids)
    ensures var p := Page(ids, c, take);
            && Ascending(p) && |p| <= take
            && (forall x :: x in p ==> x in ids && Beyond(c, x))
            && (|p| < take ==> forall x :: x in ids && Beyond(c, x) ==> x in p)
            && (forall x, y :: x in p && y in ids && Beyond(c, y) && y !in p ==> x < y)
  {
    AfterSelects(ids, c);
    var a, p := After(ids, c), Page(ids, c, take);
    forall x, y | x in p && y in ids && Beyond(c, y) && y !in p
      ensures x < y
    {
      assert y in a;
      var i :| 0 <= i < |p| && p[i] == x;
      var j :| 0 <= j < |a| && a[j] == y;
    }
  }

  /** The last id of a full page. */
  lemma LastOfPage(ids: seq<nat>, c: Cursor, take: nat)
    requires Ascending(ids) && take > 0 && |Page(ids, c, take)| == take
    ensures var last := Page(ids, c, take)[take - 1];
            Beyond(c, last) && forall x :: x in Page(ids, c, take) ==> x <= last
  {
    PageShape(ids, c, take);
    assert Page(ids, c, take)[take - 1] in Page(ids, c, take);
  }

  /** A page that misses a row still ahead is full and ends before the row. */
  lemma PageIsFull(ids: seq<nat>, c: Cursor, take: nat, r: nat)
    requires Ascending(ids) && take > 0 && r in ids && Beyond(c, r) && r !in Page(ids, c, take)
    ensures |Page(ids, c, take)| == take && forall x :: x in Page(ids, c, take) ==> x < r
  {
    PageShape(ids, c, take);
  }

  /** What a page and the rows behind it were: rows ahead of the old cursor, each in one of the two. */
  lemma PageAndRest(ids: seq<nat>, c: Cursor, p: seq<nat>, last: nat, r: nat)
    requires forall x :: x in p ==> x in ids && Beyond(c, x) && x <= last && x <= r
    requires Beyond(c, last)
    ensures Elements(p) !! AheadUpTo(ids, Some(last), r)
    ensures Elements(p) + AheadUpTo(ids, Some(last), r) <= AheadUpTo(ids, c, r)
  {
  }

  /** A page that misses a row still ahead leaves `take` fewer rows before the row. */
  lemma PageTowards(ids: seq<nat>, c: Cursor, take: nat, r: nat)
    requires Ascending(ids) && take > 0 && r in ids && Beyond(c, r) && r !in Page(ids, c, take)
    ensures var c' := Advance(Page(ids, c, take), take);
            c'.Some? && Beyond(c', r) && |AheadUpTo(ids, c', r)| + take <= |AheadUpTo(ids, c, r)|
  {
    var p := Page(ids, c, take);
    PageIsFull(ids, c, take, r);
    LastOfPage(ids, c, take);
    PageShape(ids, c, take);
    var last := p[take - 1];
    assert last in p;
    PageAndRest(ids, c, p, last, r);
    AscendingSize(p);
    DisjointSize(Elements(p), AheadUpTo(ids, Some(last), r), AheadUpTo(ids, c, r));
  }

  lemma PageAndAllBehind(ids: seq<nat>, c: Cursor, p: seq<nat>, last: nat)
    requires forall x :: x in p ==> x in ids && Beyond(c, x) && x <= last
    requires Beyond(c, last)
    ensures Elements(p) !! Ahead(ids, Some(last)) && Elements(p) + Ahead(ids, Some(last)) <= Ahead(ids, c)
  {
  }

  /** A full page leaves `take` fewer rows ahead. */
  lemma PageOnwards(ids: seq<nat>, c: Cursor, take: nat)
    requires Ascending(ids) && take > 0 && Advance(Page(ids, c, take), take).Some?
    ensures |Ahead(ids, Advance(Page(ids, c, take), take))| + take <= |Ahead(ids, c)|
  {
    var p := Page(ids, c, take);
    LastOfPage(ids, c, take);
    PageShape(ids, c, take);
    PageAndAllBehind(ids, c, p, p[take - 1]);
    AscendingSize(p);
    DisjointSize(Elements(p), Ahead(ids, Some(p[take - 1])), Ahead(ids, c));
  }

  // ----- coverage

  /** What one queue holds at each batch: ascending, and rows only leave. */
  ghost predicate Shrinking(views: seq<seq<nat>>) {
    && (forall t :: 0 <= t < |views| ==> Ascending(views[t]))
    && (forall t :: 0 <= t < |views| - 1 ==> Elements(views[t + 1]) <= Elements(views[t]))
  }

  predicate FetchedWithin(views: seq<seq<nat>>, c: Cursor, take: nat, r: nat, batches: nat)
    requires batches <= |views| && take > 0
    decreases batches
  {
    batches > 0 &&
    (|| r in Page(views[0], c, take)
     || FetchedWithin(views[1..], Advance(Page(views[0], c, take), take), take, r, batches - 1))
  }

  lemma TailShrinks(views: seq<seq<nat>>)
    requires Shrinking(views) && |views| > 0
    ensures Shrinking(views[1..])
  {
  }

  lemma AnotherPage(left: nat, take: nat, batches: nat)
    requires left > 0 && left + take <= batches * take
    ensures batches > 1 && left <= (batches - 1) * take
  {
  }

  /** A row still ahead of the cursor is fetched within as many batches as pages stand before it. */
  lemma {:induction false} FetchedFromAhead(views: seq<seq<nat>>, c: Cursor, take: nat, r: nat, batches: nat)
    requires Shrinking(views) && take > 0 && 0 < batches <= |views|
    requires forall t :: 0 <= t < batches ==> r in views[t]
    requires Beyond(c, r) && |AheadUpTo(views[0], c, r)| <= batches * take
    ensures FetchedWithin(views, c, take, r, batches)
    decreases batches
  {
    if r !in Page(views[0], c, take) {
      PageTowards(views[0], c, take, r);
      var c' := Advance(Page(views[0], c, take), take);
      assert r in AheadUpTo(views[0], c', r);
      AnotherPage(|AheadUpTo(views[0], c', r)|, take, batches);
      TailShrinks(views);
      var tail := views[1..];
      assert tail[0] == views[1] && Elements(views[0 + 1]) <= Elements(views[0]);
      assert r in tail[0];
      forall x | x in AheadUpTo(tail[0], c', r)
        ensures x in AheadUpTo(views[0], c', r)
      {
        assert x in Elements(views[1]);
      }
      SubsetSize(AheadUpTo(tail[0], c', r), AheadUpTo(views[0], c', r));
      FetchedFromAhead(tail, c', take, r, batches - 1);
    }
  }

  /** From any cursor: first to the end of the queue, then from its start. */
  lemma {:induction false} FetchedFromAnywhere(views: seq<seq<nat>>, c: Cursor, take: nat, r: nat, pages: nat, lap: nat)
    requires Shrinking(views) && take > 0 && 0 < lap && pages + lap <= |views|
    requires forall t :: 0 <= t < pages + lap ==> r in views[t]
    requires |Elements(views[0])| <= lap * take
    requires Beyond(c, r) || |Ahead(views[0], c)| < pages * take
    ensures FetchedWithin(views, c, take, r, pages + lap)
    decreases pages
  {
    var p := Page(views[0], c, take);
    var c' := Advance(p, take);
    if Beyond(c, r) {
      SubsetSize(AheadUpTo(views[0], c, r), Elements(views[0]));
      FetchedFromAhead(views, c, take, r, lap);
      MoreBatches(views, c, take, r, lap, pages + lap);
    } else if pages > 0 {
      var tail := views[1..];
      TailShrinks(views);
      assert tail[0] == views[1] && Elements(views[0 + 1]) <= Elements(views[0]);
      SubsetSize(Elements(tail[0]), Elements(views[0]));
      if c'.Some? {
        PageOnwards(views[0], c, take);
        assert (pages - 1) * take == pages * take - take;
        forall x | x in Ahead(tail[0], c')
          ensures x in Ahead(views[0], c')
        {
          assert x in Elements(views[1]);
        }
        SubsetSize(Ahead(tail[0], c'), Ahead(views[0], c'));
      }
      FetchedFromAnywhere(tail, c', take, r, pages - 1, lap);
    }
  }

  lemma {:induction false} MoreBatches(views: seq<seq<nat>>, c: Cursor, take: nat, r: nat, few: nat, many: nat)
    requires few <= many <= |views| && take > 0 && FetchedWithin(views, c, take, r, few)
    ensures FetchedWithin(views, c, take, r, many)
    decreases few
  {
    if r !in Page(views[0], c, take) {
      MoreBatches(views[1..], Advance(Page(views[0], c, take), take), take, r, few - 1, many - 1);
    }
  }

  /**
    Coverage: in a queue of n rows that rows may leave but none join, a row that stays is fetched
    within 2 * (n / take + 1) batches, whatever the cursor was.
   */
  lemma EveryRowIsFetched(views: seq<seq<nat>>, c: Cursor, take: nat, r: nat)
    requires Shrinking(views) && take > 0 && |views| > 0
    requires var laps := |views[0]| / take + 1;
             2 * laps <= |views| && forall t :: 0 <= t < 2 * laps ==> r in views[t]
    ensures FetchedWithin(views, c, take, r, 2 * (|views[0]| / take + 1))
  {
    var n := |views[0]|;
    var laps := n / take + 1;
    PagesSuffice(n, take);
    AscendingSize(views[0]);
    SubsetSize(Ahead(views[0], c), Elements(views[0]));
    FetchedFromAnywhere(views, c, take, r, laps, laps);
  }

  lemma PagesSuffice(n: nat, take: nat)
    requires take > 0
    ensures n < (n / take + 1) * take
  {
  }

  /** What is left of c after the first t views, one after the other. */
  function Through(views: seq<seq<nat>>, c: Cursor, next: (seq<nat>, Cursor) -> Cursor, t: nat): Cursor
    requires t <= |views|
  {
    if t == 0 then c else next(views[t - 1], Through(views, c, next, t - 1))
  }

  /** From batch a on it is the same, starting with what is left at a. */
  lemma {:induction false} ThroughFrom(views: seq<seq<nat>>, c: Cursor, next: (seq<nat>, Cursor) -> Cursor,
                                       a: nat, b: nat, t: nat)
    requires a <= b <= |views| && t <= b - a
    ensures Through(views[a..b], Through(views, c, next, a), next, t) == Through(views, c, next, a + t)
  {
    if t > 0 {
      ThroughFrom(views, c, next, a, b, t - 1);
      assert views[a..b][t - 1] == views[a + (t - 1)];
    }
  }

  /** How one batch moves the cursor. */
  function Mover(take: nat): (seq<nat>, Cursor) -> Cursor
    requires take > 0
  {
    (view, c) => Advance(Page(view, c, take), take)
  }

  /** The cursor that batch t starts from, and the page it fetches. */
  function CursorAt(views: seq<seq<nat>>, c: Cursor, take: nat, t: nat): Cursor
    requires t <= |views| && take > 0
  {
    Through(views, c, Mover(take), t)
  }

  function PageAt(views: seq<seq<nat>>, c: Cursor, take: nat, t: nat): seq<nat>
    requires t < |views| && take > 0
  {
    Page(views[t], CursorAt(views, c, take, t), take)
  }

  lemma LaterCursor(views: seq<seq<nat>>, c: Cursor, take: nat, t: nat)
    requires t + 1 < |views| && take > 0
    ensures CursorAt(views, c, take, t + 1) == CursorAt(views[1..], CursorAt(views, c, take, 1), take, t)
  {
    ThroughFrom(views, c, Mover(take), 1, |views|, t);
    assert views[1..|views|] == views[1..];
  }

  lemma LaterPage(views: seq<seq<nat>>, c: Cursor, take: nat, t: nat)
    requires t + 1 < |views| && take > 0
    ensures PageAt(views, c, take, t + 1) == PageAt(views[1..], Advance(Page(views[0], c, take), take), take, t)
  {
    LaterCursor(views, c, take, t);
    FirstMove(views, c, take);
    assert views[1..][t] == views[t + 1];
  }

  lemma FirstMove(views: seq<seq<nat>>, c: Cursor, take: nat)
    requires views != [] && take > 0
    ensures CursorAt(views, c, take, 1) == Advance(Page(views[0], c, take), take)
  {
    assert Through(views, c, Mover(take), 0) == c;
  }

  /** A row fetched within some batches is on the page of one of them. */
  lemma {:induction false} FetchedInSomeBatch(views: seq<seq<nat>>, c: Cursor, take: nat, r: nat,
                                              batches: nat) returns (t: nat)
    requires batches <= |views| && take > 0 && FetchedWithin(views, c, take, r, batches)
    ensures t < batches && r in PageAt(views, c, take, t)
    decreases batches
  {
    if r in Page(views[0], c, take) {
      t := 0;
    } else {
      var c' := Advance(Page(views[0], c, take), take);
      var t' := FetchedInSomeBatch(views[1..], c', take, r, batches - 1);
      LaterPage(views, c, take, t');
      t := t' + 1;
    }
  }

  /** A scan seen from batch a on is a scan that starts at the cursor of that batch. */
  lemma ScanFrom(views: seq<seq<nat>>, c: Cursor, take: nat, a: nat, b: nat, t: nat)
    requires a <= b <= |views| && t < b - a && take > 0
    ensures PageAt(views[a..b], CursorAt(views, c, take, a), take, t) == PageAt(views, c, take, a + t)
  {
    ThroughFrom(views, c, Mover(take), a, b, t);
    assert views[a..b][t] == views[a + t];
  }

  /** In this stretch of a scan rows only leave, and row r stays. */
  ghost predicate Stays(views: seq<seq<nat>>, r: nat, a: nat, b: nat) {
    && a <= b <= |views|
    && (forall t :: a <= t < b ==> Ascending(views[t]) && r in views[t])
    && (forall t :: a <= t < b - 1 ==> Elements(views[t + 1]) <= Elements(views[t]))
  }

  lemma StretchShrinks(views: seq<seq<nat>>, r: nat, a: nat, b: nat)
    requires Stays(views, r, a, b)
    ensures Shrinking(views[a..b]) && forall t :: 0 <= t < b - a ==> r in views[a..b][t]
  {
    var v := views[a..b];
    forall t | 0 <= t < |v|
      ensures Ascending(v[t]) && r in v[t]
    {
      assert v[t] == views[a + t];
    }
    forall t | 0 <= t < |v| - 1
      ensures Elements(v[t + 1]) <= Elements(v[t])
    {
      assert v[t] == views[a + t] && v[t + 1] == views[(a + t) + 1];
    }
  }

  /** A row that stays for 2 * (n / take + 1) batches, n rows at their beginning, is on a page of one of them. */
  lemma FetchedInStretch(views: seq<seq<nat>>, c: Cursor, take: nat, r: nat, a: nat, b: nat) returns (t: nat)
    requires take > 0 && Stays(views, r, a, b) && a < b && b - a == 2 * (|views[a]| / take + 1)
    ensures a <= t < b && r in PageAt(views, c, take, t)
  {
    var v, c' := views[a..b], CursorAt(views, c, take, a);
    StretchShrinks(views, r, a, b);
    var k := FetchedInScan(v, c', take, r);
    ScanFrom(views, c, take, a, b, k);
    t := a + k;
  }

  lemma FetchedInScan(views: seq<seq<nat>>, c: Cursor, take: nat, r: nat) returns (k: nat)
    requires take > 0 && Shrinking(views) && |views| > 0 && |views| == 2 * (|views[0]| / take + 1)
    requires forall t :: 0 <= t < |views| ==> r in views[t]
    ensures k < |views| && r in PageAt(views, c, take, k)
  {
    EveryRowIsFetched(views, c, take, r);
    k := FetchedInSomeBatch(views, c, take, r, |views|);
  }

  // ----- the queues of a table

  predicate Keyed(table: seq<Row>) {
    forall i, j :: 0 <= i < j < |table| ==> table[i].id < table[j].id
  }

  /** Row i of the table has this id and is selected by the queue. */
  predicate Picked(table: seq<Row>, queue: nat, recentExpiry: int, id: nat, i: int) {
    0 <= i < |table| && table[i].id == id && Candidate(table[i]) && Selects(queue, table[i], recentExpiry)
  }

  ghost predicate Picks(table: seq<Row>, queue: nat, recentExpiry: int, id: nat) {
    exists i :: Picked(table, queue, recentExpiry, id, i)
  }

  lemma PicksAppends(table: seq<Row>, r: Row, queue: nat, recentExpiry: int, id: nat)
    ensures Picks(table + [r], queue, recentExpiry, id) <==>
              Picks(table, queue, recentExpiry, id) || (r.id == id && Candidate(r) && Selects(queue, r, recentExpiry))
  {
    var more := table + [r];
    if Picks(table, queue, recentExpiry, id) {
      var i :| Picked(table, queue, recentExpiry, id, i);
      assert Picked(more, queue, recentExpiry, id, i);
    }
    if r.id == id && Candidate(r) && Selects(queue, r, recentExpiry) {
      assert Picked(more, queue, recentExpiry, id, |table|);
    }
    if Picks(more, queue, recentExpiry, id) {
      var i :| Picked(more, queue, recentExpiry, id, i);
      assert i < |table| ==> Picked(table, queue, recentExpiry, id, i);
    }
  }

  lemma PickedIsEarlier(table: seq<Row>, r: Row, queue: nat, recentExpiry: int, id: nat)
    requires Keyed(table + [r]) && Picks(table, queue, recentExpiry, id)
    ensures id < r.id
  {
    var i :| Picked(table, queue, recentExpiry, id, i);
    assert (table + [r])[i].id < (table + [r])[|table|].id;
  }

  lemma AscendingAppends(ids: seq<nat>, x: nat)
    requires Ascending(ids) && forall y :: y in ids ==> y < x
    ensures Ascending(ids + [x])
  {
    forall i | 0 <= i < |ids|
      ensures ids[i] < x
    {
      assert ids[i] in ids;
    }
  }

  /** The queue holds exactly the rows it selects, in id order. */
  lemma {:induction false} QueueHolds(table: seq<Row>, queue: nat, recentExpiry: int)
    requires Keyed(table)
    ensures Ascending(QueueIds(table, queue, recentExpiry))
    ensures forall id :: id in QueueIds(table, queue, recentExpiry) <==> Picks(table, queue, recentExpiry, id)
  {
    if table != [] {
      var init, r := table[..|table| - 1], table[|table| - 1];
      assert table == init + [r];
      QueueHolds(init, queue, recentExpiry);
      OneRowMore(init, r, queue, recentExpiry);
    }
  }

  lemma OneRowMore(init: seq<Row>, r: Row, queue: nat, recentExpiry: int)
    requires Keyed(init + [r]) && Ascending(QueueIds(init, queue, recentExpiry))
    requires forall id :: id in QueueIds(init, queue, recentExpiry) <==> Picks(init, queue, recentExpiry, id)
    ensures Ascending(QueueIds(init + [r], queue, recentExpiry))
    ensures forall id :: id in QueueIds(init + [r], queue, recentExpiry) <==> Picks(init + [r], queue, recentExpiry, id)
  {
    var ids := QueueIds(init, queue, recentExpiry);
    QueueAppends(init, r, queue, recentExpiry);
    forall id
      ensures id in QueueIds(init + [r], queue, recentExpiry) <==> Picks(init + [r], queue, recentExpiry, id)
    {
      PicksAppends(init, r, queue, recentExpiry, id);
    }
    forall id | id in ids
      ensures id < r.id
    {
      PickedIsEarlier(init, r, queue, recentExpiry, id);
    }
    AscendingAppends(ids, r.id);
  }

  /** Row i is in a queue exactly when it is a candidate and the queue selects it. */
  lemma QueuedIff(table: seq<Row>, queue: nat, recentExpiry: int, i: nat)
    requires Keyed(table) && i < |table|
    ensures table[i].id in QueueIds(table, queue, recentExpiry) <==>
              Candidate(table[i]) && Selects(queue, table[i], recentExpiry)
  {
    QueueHolds(table, queue, recentExpiry);
    if Candidate(table[i]) && Selects(queue, table[i], recentExpiry) {
      assert Picked(table, queue, recentExpiry, table[i].id, i);
    }
    if Picks(table, queue, recentExpiry, table[i].id) {
      var j :| Picked(table, queue, recentExpiry, table[i].id, j);
      assert i == j;
    }
  }

  /** At any instant every live quoted order is in exactly one queue, and no other order is in any. */
  lemma QueuesPartition(table: seq<Row>, recentExpiry: int, i: nat)
    requires Keyed(table) && i < |table|
    ensures Candidate(table[i]) <==> exists q: nat :: q < QUEUES && table[i].id in QueueIds(table, q, recentExpiry)
    ensures forall q: nat, q': nat ::
              table[i].id in QueueIds(table, q, recentExpiry) && table[i].id in QueueIds(table, q', recentExpiry) ==>
                q == q'
  {
    var r := table[i];
    forall q: nat
      ensures r.id in QueueIds(table, q, recentExpiry) <==> Candidate(r) && Selects(q, r, recentExpiry)
    {
      QueuedIff(table, q, recentExpiry, i);
    }
    if Candidate(r) {
      var q: nat := if r.orderId.Some? then 0 else if r.expiresAt > recentExpiry then 1 else 2;
      QueuedIff(table, q, recentExpiry, i);
      assert q < QUEUES && r.id in QueueIds(table, q, recentExpiry);
    }
    if q: nat :| q < QUEUES && r.id in QueueIds(table, q, recentExpiry) {
      QueuedIff(table, q, recentExpiry, i);
    }
  }

  /** The ids of one queue at each batch: tables[t] and recent[t] are what batch t reads. */
  function Views(tables: seq<seq<Row>>, recent: seq<int>, queue: nat): (v: seq<seq<nat>>)
    requires |tables| == |recent|
    ensures |v| == |tables| && forall t :: 0 <= t < |v| ==> v[t] == QueueIds(tables[t], queue, recent[t])
  {
    seq(|tables|, t requires 0 <= t < |tables| => QueueIds(tables[t], queue, recent[t]))
  }

  /** What an order is queued as: bound, unpaid and expired less than six hours ago, or unpaid for longer. */
  lemma QueueMeans(table: seq<Row>, queue: nat, now: int, i: nat)
    requires Keyed(table) && i < |table| && queue < QUEUES
    ensures var r := table[i];
            r.id in QueueIds(table, queue, now - SETTLEMENT_GRACE_MS) <==>
              && r.quoteId.Some? && r.status !in {Delivered, Refunded, Failed, Expired}
              && if queue == 0 then r.orderId.Some?
                 else r.orderId.None? && (queue == 1 <==> now < r.expiresAt + 21_600_000)
  {
    QueuedIff(table, queue, now - SETTLEMENT_GRACE_MS, i);
  }

  /**
    Coverage of the order table: while rows may leave a queue but none join it, an order that stays
    among its initial n rows is fetched within 2 * (n / take + 1) batches, whatever the cursor was.
   */
  lemma EveryOrderIsFetched(tables: seq<seq<Row>>, recent: seq<int>, queue: nat, c: Cursor, id: nat)
    requires |tables| == |recent| > 0 && forall t :: 0 <= t < |tables| ==> Keyed(tables[t])
    requires var v := Views(tables, recent, queue);
             && (forall t :: 0 <= t < |v| - 1 ==> Elements(v[t + 1]) <= Elements(v[t]))
             && 2 * (|v[0]| / Take(queue) + 1) <= |v|
             && (forall t :: 0 <= t < 2 * (|v[0]| / Take(queue) + 1) ==> id in v[t])
    ensures var v := Views(tables, recent, queue);
            FetchedWithin(v, c, Take(queue), id, 2 * (|v[0]| / Take(queue) + 1))
  {
    var v := Views(tables, recent, queue);
    forall t | 0 <= t < |v|
      ensures Ascending(v[t])
    {
      QueueHolds(tables[t], queue, recent[t]);
    }
    EveryRowIsFetched(v, c, Take(queue), id);
  }

  // ----- the service

  lemma PageAppends(ids: seq<nat>, id: nat, c: Cursor, take: nat)
    ensures Page(ids + [id], c, take) ==
            Page(ids, c, take) + if Beyond(c, id) && |Page(ids, c, take)| < take then [id] else []
  {
  }

  lemma QueueAppends(table: seq<Row>, r: Row, queue: nat, recentExpiry: int)
    ensures QueueIds(table + [r], queue, recentExpiry) ==
            if Candidate(r) && Selects(queue, r, recentExpiry) then QueueIds(table, queue, recentExpiry) + [r.id]
            else QueueIds(table, queue, recentExpiry)
  {
  }

  class Reconciler {
    var cursors: seq<Cursor>
    var running: bool

    ghost predicate Valid()
      reads this
    {
      |cursors| == QUEUES
    }

    constructor ()
      ensures Valid() && !running && forall q :: 0 <= q < QUEUES ==> cursors[q].None?
    {
      cursors, running := [None, None, None], false;
    }

    /** The query of one queue against the table as it is then. */
    method FindRows(table: seq<Row>, queue: nat, recentExpiry: int, c: Cursor) returns (ids: seq<nat>)
      ensures ids == Page(QueueIds(table, queue, recentExpiry), c, Take(queue))
    {
      ids := [];
      var i := 0;
      while i < |table|
        invariant 0 <= i <= |table|
        invariant ids == Page(QueueIds(table[..i], queue, recentExpiry), c, Take(queue))
      {
        var r := table[i];
        assert table[..i + 1] == table[..i] + [r];
        QueueAppends(table[..i], r, queue, recentExpiry);
        PageAppends(QueueIds(table[..i], queue, recentExpiry), r.id, c, Take(queue));
        if Candidate(r) && Selects(queue, r, recentExpiry) && Beyond(c, r.id) && |ids| < Take(queue) {
          ids := ids + [r.id];
        }
        i := i + 1;
      }
      assert table[..|table|] == table;
    }

    /** One batch; tables[q] is the order table at the moment queue q is read. A batch already running is left alone. */
    method ReconcileBatch(tables: seq<seq<Row>>, now: int) returns (fetched: seq<seq<nat>>)
      requires Valid() && |tables| == QUEUES
      modifies this
      ensures Valid() && running == old(running)
      ensures old(running) ==> fetched == [] && cursors == old(cursors)
      ensures !old(running) ==>
                && |fetched| == QUEUES
                && forall q :: 0 <= q < QUEUES ==>
                     && var take := if q == 2 then 5 else 20;
                       && fetched[q] == Page(QueueIds(tables[q], q, now - 21_600_000), old(cursors)[q], take)
                       && cursors[q] == if |fetched[q]| == take then Some(fetched[q][take - 1]) else None
    {
      fetched := [];
      if running {
        return;
      }
      running := true;
      var recentExpiry := now - SETTLEMENT_GRACE_MS;
      for queue := 0 to QUEUES
        invariant Valid() && |fetched| == queue
        invariant forall q :: queue <= q < QUEUES ==> cursors[q] == old(cursors)[q]
        invariant forall q :: 0 <= q < queue ==>
                    && fetched[q] == Page(QueueIds(tables[q], q, recentExpiry), old(cursors)[q], Take(q))
                    && cursors[q] == Advance(fetched[q], Take(q))
      {
        var ids := FindRows(tables[queue], queue, recentExpiry, cursors[queue]);
        cursors := cursors[queue := if |ids| == Take(queue) then Some(ids[|ids| - 1]) else None];
        fetched := fetched + [ids];
      }
      running := false;
    }
  }
}
