/** What every step keeps, and what every row goes through, in every run of the swap tables. */
module SwapInvariant {
  import opened Common
  import opened SwapStateMachine
  import opened SwapTables

  // ----- the invariant

  /** The unique indexes on invoiceId, quoteId, orderId; NULLs may repeat. */
  ghost predicate UniqueRows(orders: seq<Order>) {
    forall i, j :: 0 <= i < j < |orders| ==>
      && orders[i].invoiceId != orders[j].invoiceId
      && (orders[i].quoteId.Some? ==> orders[i].quoteId != orders[j].quoteId)
      && (orders[i].orderId.Some? ==> orders[i].orderId != orders[j].orderId)
  }

  ghost predicate GoodRow(s: Store, row: Order) {
    && !row.status.UnknownStatus?
    && row.invoiceId in s.invoices
    && (row.orderId.None? ==> row.status == PendingPayment)
    && (row.actualOut.Some? ==> row.status == Delivered)
    && (row.status == Failed ==> row.invoiceId in s.refunds)
  }

  /**
    A processed key belongs to this row, which is concluded if the event was terminal, and concluded or
    with a case if it was a recovery hold.
   */
  ghost predicate Answers(row: Order, refunds: map<string, Refund>, k: EventKey) {
    && row.orderId == Some(k.orderId)
    && (TerminalEvent(k.event) ==> Terminal(row.status))
    && (k.event == RecoveryRequired ==> Terminal(row.status) || row.invoiceId in refunds)
  }

  ghost predicate Answered(s: Store, k: EventKey) {
    exists j :: 0 <= j < |s.orders| && Answers(s.orders[j], s.refunds, k)
  }

  ghost predicate Inv(s: Store) {
    && UniqueRows(s.orders)
    && (forall i :: 0 <= i < |s.orders| ==> GoodRow(s, s.orders[i]))
    && (forall id :: id in s.invoices ==> s.invoices[id] % 1000 == 0)
    && (forall id :: id in s.refunds ==> id in s.invoices && s.refunds[id].amountSats * 1000 == s.invoices[id])
    && (forall k :: k in s.events && s.events[k] ==> Answered(s, k))
  }

  // ----- one step

  /** What may happen to one row in one step. */
  ghost predicate RowStep(a: Order, b: Order) {
    && b.invoiceId == a.invoiceId && b.quoteId == a.quoteId && b.feeAsset == a.feeAsset
    && (a.orderId.Some? ==> b.orderId == a.orderId)
    && (b.status == a.status || Advances(a.status, b.status))
    && (b.actualOut == a.actualOut || b.status != a.status)
    && (Terminal(a.status) ==> b == a)
  }

  /** What may happen to the tables in one step: rows only advance or are appended, refunds stay. */
  ghost predicate StoreStep(s: Store, t: Store) {
    && |s.orders| <= |t.orders|
    && (forall i :: 0 <= i < |s.orders| ==> RowStep(s.orders[i], t.orders[i]))
    && (forall i :: |s.orders| <= i < |t.orders| ==> t.orders[i].status == PendingPayment && t.orders[i].orderId.None?)
    && (forall id :: id in s.invoices ==> id in t.invoices && t.invoices[id] == s.invoices[id])
    && (forall id :: id in s.refunds ==> id in t.refunds && t.refunds[id].amountSats == s.refunds[id].amountSats
                                         && (s.refunds[id].status != Open ==> t.refunds[id] == s.refunds[id]))
    && (forall k :: k in s.events && s.events[k] ==> k in t.events && t.events[k])
  }

  /** The located row is the bound one, or an unbound one that no bound row competes with. */
  lemma LocateFinds(orders: seq<Order>, p: Payload)
    ensures var i := Locate(orders, p);
            i < |orders| ==>
              || orders[i].orderId == Some(p.orderId)
              || (orders[i].orderId.None? && Truthy(p.quoteId) && orders[i].quoteId == p.quoteId
                  && forall j :: 0 <= j < |orders| ==> orders[j].orderId != Some(p.orderId))
  {
  }

  lemma BindKeepsUnique(s: Store, p: Payload)
    requires UniqueRows(s.orders) && Locate(s.orders, p) < |s.orders|
    ensures UniqueRows(BindOrder(s, Locate(s.orders, p), p.orderId).orders)
  {
  }

  /** The tables with row i already bound to the payload's order. */
  ghost predicate Bound(s: Store, i: nat, p: Payload) {
    && i < |s.orders|
    && Inv(s)
    && s.orders[i].orderId == Some(p.orderId)
  }

  /** Rows that advance and refund cases that stay keep every answer. */
  lemma AnswerIsKept(s: Store, t: Store, k: EventKey)
    requires |s.orders| <= |t.orders| && forall i :: 0 <= i < |s.orders| ==> RowStep(s.orders[i], t.orders[i])
    requires s.refunds.Keys <= t.refunds.Keys && Answered(s, k)
    ensures Answered(t, k)
  {
    var j :| 0 <= j < |s.orders| && Answers(s.orders[j], s.refunds, k);
    assert RowStep(s.orders[j], t.orders[j]);
    assert Answers(t.orders[j], t.refunds, k);
  }

  lemma BindKeepsInv(s: Store, p: Payload)
    requires Inv(s) && Locate(s.orders, p) < |s.orders|
    ensures var i := Locate(s.orders, p);
            var t := BindOrder(s, i, p.orderId);
            Bound(t, i, p) && RowStep(s.orders[i], t.orders[i])
  {
    BindKeepsUnique(s, p);
    LocateFinds(s.orders, p);
    var i := Locate(s.orders, p);
    var t := BindOrder(s, i, p.orderId);
    assert GoodRow(s, s.orders[i]);
    forall k | k in t.events && t.events[k]
      ensures Answered(t, k)
    {
      AnswerIsKept(s, t, k);
    }
    forall j | 0 <= j < |t.orders|
      ensures GoodRow(t, t.orders[j])
    {
      assert GoodRow(s, s.orders[j]);
    }
  }

  /** The effect of a handled event: row i advances, one key is processed, a case may be opened. */
  ghost predicate Handled(s: Store, t: Store, i: nat, p: Payload) {
    && i < |s.orders| == |t.orders|
    && t.invoices == s.invoices
    && t.events == s.events[KeyOf(p) := true]
    && t.orders == s.orders[i := t.orders[i]]
    && t.orders[i].orderId == s.orders[i].orderId
    && RowStep(s.orders[i], t.orders[i])
    && (t.orders[i].actualOut.Some? ==> t.orders[i].status == Delivered)
    && (t.orders[i].orderId == Some(p.orderId) ==> Answers(t.orders[i], t.refunds, KeyOf(p)))
    && (t.refunds == s.refunds || OpensCase(s, t, s.orders[i].invoiceId))
    && (t.orders[i].status == Failed ==> s.orders[i].invoiceId in t.refunds)
  }

  ghost predicate OpensCase(s: Store, t: Store, id: string) {
    && id !in s.refunds
    && (exists r: Refund :: r.amountSats == AmountSats(s.invoices, id) && t.refunds == s.refunds[id := r])
  }

  lemma HandleEffect(s: Store, i: nat, p: Payload)
    requires i < |s.orders| && GoodRow(s, s.orders[i])
    ensures Handle(s, i, p).Committed? ==> Handled(s, Handle(s, i, p).store, i, p)
  {
    var row := s.orders[i];
    if Mapped(p.event) {
      DecideIsSound(row.status, p.event);
    }
  }

  lemma HandledKeepsInv(s: Store, t: Store, i: nat, p: Payload)
    requires Bound(s, i, p) && Handled(s, t, i, p)
    ensures Inv(t) && StoreStep(s, t)
  {
    forall j | 0 <= j < |t.orders| ensures GoodRow(t, t.orders[j]) && RowStep(s.orders[j], t.orders[j]) {
      assert GoodRow(s, s.orders[j]);
    }
    forall k | k in t.events && t.events[k] ensures Answered(t, k) {
      if k == KeyOf(p) {
        assert Answers(t.orders[i], t.refunds, k);
      } else {
        AnswerIsKept(s, t, k);
      }
    }
  }

  lemma WithEventKeepsInv(s: Store, k: EventKey)
    requires Inv(s)
    ensures Inv(WithEvent(s, k)) && WithEvent(s, k).orders == s.orders && StoreStep(s, WithEvent(s, k))
  {
    var t := WithEvent(s, k);
    forall i | 0 <= i < |t.orders| ensures GoodRow(t, t.orders[i]) {
      assert GoodRow(s, s.orders[i]);
    }
    forall e | e in t.events && t.events[e] ensures Answered(t, e) {
      AnswerIsKept(s, t, e);
    }
  }

  /** A bind followed by a handled event is one step of the store. */
  lemma BindThenHandle(s: Store, p: Payload, t: Store)
    requires Inv(s) && Locate(s.orders, p) < |s.orders|
    requires Handled(BindOrder(s, Locate(s.orders, p), p.orderId), t, Locate(s.orders, p), p)
    ensures Inv(t) && StoreStep(s, t)
  {
    var i := Locate(s.orders, p);
    var b := BindOrder(s, i, p.orderId);
    BindKeepsInv(s, p);
    HandledKeepsInv(b, t, i, p);
    forall j | 0 <= j < |s.orders| ensures RowStep(s.orders[j], t.orders[j]) {
      if j == i {
        assert GoodRow(s, s.orders[i]);
        RowStepComposes(s, b.orders[i], t.orders[i], i);
      } else {
        assert b.orders[j] == s.orders[j];
      }
    }
  }

  /** An event that finds its order: bind, then handle. */
  lemma FoundKeepsInv(s: Store, p: Payload)
    requires Inv(s) && Locate(s.orders, p) < |s.orders|
    ensures var i := Locate(s.orders, p);
            var t := Result(s, Handle(BindOrder(s, i, p.orderId), i, p));
            Inv(t) && StoreStep(s, t)
  {
    var i := Locate(s.orders, p);
    var b := BindOrder(s, i, p.orderId);
    BindKeepsInv(s, p);
    HandleEffect(b, i, p);
    if Handle(b, i, p).Committed? {
      BindThenHandle(s, p, Handle(b, i, p).store);
    } else {
      NoStep(s);
    }
  }

  lemma NoStep(s: Store)
    ensures StoreStep(s, s)
  {
  }

  lemma StepsCompose(s: Store, t: Store, u: Store)
    requires StoreStep(s, t) && t.orders == s.orders && StoreStep(t, u)
    ensures StoreStep(s, u)
  {
  }

  /** What a delivery does to the store, case by case. */
  lemma DeliverCases(s: Store, p: Payload)
    ensures var s1 := WithEvent(s, KeyOf(p));
            var i := Locate(s1.orders, p);
            After(s, Deliver(p)) ==
            if s1.events[KeyOf(p)] || i == |s1.orders| then s1
            else if QuoteMismatch(s1.orders[i], p) then s
            else Result(s, Handle(BindOrder(s1, i, p.orderId), i, p))
  {
  }

  lemma ApplyKeepsInv(s: Store, p: Payload)
    requires Inv(s)
    ensures Inv(After(s, Deliver(p))) && StoreStep(s, After(s, Deliver(p)))
  {
    var s1 := WithEvent(s, KeyOf(p));
    var i := Locate(s1.orders, p);
    DeliverCases(s, p);
    WithEventKeepsInv(s, KeyOf(p));
    NoStep(s);
    if !s1.events[KeyOf(p)] && i < |s1.orders| && !QuoteMismatch(s1.orders[i], p) {
      FoundKeepsInv(s1, p);
      var h := Handle(BindOrder(s1, i, p.orderId), i, p);
      if h.Committed? { StepsCompose(s, s1, h.store); }
    }
  }

  /** Binding changes nothing but orderId, so it composes with what follows. */
  lemma RowStepComposes(s: Store, b: Order, c: Order, i: nat)
    requires i < |s.orders| && GoodRow(s, s.orders[i])
    requires b == s.orders[i].(orderId := b.orderId) && RowStep(s.orders[i], b) && RowStep(b, c)
    ensures RowStep(s.orders[i], c)
  {
  }

  lemma RequestKeepsInv(s: Store, q: Quote)
    requires Inv(s)
    ensures Inv(After(s, Request(q))) && StoreStep(s, After(s, Request(q)))
  {
    var t := After(s, Request(q));
    if t.orders != s.orders {
      assert t.orders == s.orders + [NewOrder(q)];
      forall i | 0 <= i < |t.orders| ensures GoodRow(t, t.orders[i]) {
        if i < |s.orders| { assert GoodRow(s, s.orders[i]); }
      }
      forall k | k in t.events && t.events[k] ensures Answered(t, k) {
        AnswerIsKept(s, t, k);
      }
    }
  }

  /** Rows and their invoices, answers and refund keys are the same; one case that was open may be resolved. */
  ghost predicate Resolves(s: Store, t: Store, id: string) {
    && t == s.(refunds := t.refunds) && id in s.refunds && s.refunds[id].status == Open
    && (exists r: Refund :: r.amountSats == s.refunds[id].amountSats && t.refunds == s.refunds[id := r])
  }

  lemma ResolveEffect(s: Store, step: Step)
    requires step.ResolvePaid? || step.ResolveAbandoned?
    ensures After(s, step) == s || Resolves(s, After(s, step), step.invoiceId)
  {
  }

  lemma ResolvedKeepsInv(s: Store, t: Store, id: string)
    requires Inv(s) && Resolves(s, t, id)
    ensures Inv(t) && StoreStep(s, t)
  {
    forall i | 0 <= i < |t.orders| ensures GoodRow(t, t.orders[i]) {
      assert GoodRow(s, s.orders[i]);
    }
    forall k | k in t.events && t.events[k] ensures Answered(t, k) {
      AnswerIsKept(s, t, k);
    }
  }

  lemma ResolveKeepsInv(s: Store, step: Step)
    requires Inv(s) && (step.ResolvePaid? || step.ResolveAbandoned?)
    ensures Inv(After(s, step)) && StoreStep(s, After(s, step))
  {
    ResolveEffect(s, step);
    if After(s, step) == s {
      NoStep(s);
    } else {
      ResolvedKeepsInv(s, After(s, step), step.invoiceId);
    }
  }

  /** Every step keeps the invariant and only moves rows and refund cases forward. */
  lemma StepKeepsInv(s: Store, step: Step)
    requires Inv(s)
    ensures Inv(After(s, step)) && StoreStep(s, After(s, step))
  {
    match step
    case Deliver(p) => ApplyKeepsInv(s, p);
    case Request(q) => RequestKeepsInv(s, q);
    case ResolvePaid(_, _, _) => ResolveKeepsInv(s, step);
    case ResolveAbandoned(_, _) => ResolveKeepsInv(s, step);
  }

  // ----- every run

  /** The invariant holds after every run from any store in which it holds, the empty one included. */
  lemma {:induction false} RunKeepsInv(s: Store, steps: seq<Step>)
    requires Inv(s)
    ensures Inv(Run(s, steps))
    decreases |steps|
  {
    if steps != [] {
      StepKeepsInv(s, steps[0]);
      RunKeepsInv(After(s, steps[0]), steps[1..]);
    }
  }

  /** In no reachable state does the handler meet a status outside the table. */
  lemma ReachableNeverUnknown(steps: seq<Step>, i: nat, e: Event)
    requires i < |Run(EMPTY, steps).orders| && Mapped(e)
    ensures Decide(Run(EMPTY, steps).orders[i].status, e) != Throws
  {
    RunKeepsInv(EMPTY, steps);
    assert GoodRow(Run(EMPTY, steps), Run(EMPTY, steps).orders[i]);
    DecideIsSound(Run(EMPTY, steps).orders[i].status, e);
  }

  /** A status in front of a history that may start with it. */
  function Prepend(here: seq<Status>, rest: seq<Status>): (h: seq<Status>)
    ensures rest != [] ==> h != [] && h[|h| - 1] == rest[|rest| - 1]
  {
    if here != [] && here <= rest then rest else here + rest
  }

  function StatusNow(s: Store, i: nat): seq<Status> {
    if i < |s.orders| then [s.orders[i].status] else []
  }

  /** The statuses row i shows over a run, without repetitions. */
  function Trail(s: Store, steps: seq<Step>, i: nat): seq<Status>
    decreases |steps|
  {
    if steps == [] then StatusNow(s, i)
    else Prepend(StatusNow(s, i), Trail(After(s, steps[0]), steps[1..], i))
  }

  /** Table edges all the way, except that the last step may jump into a terminal status. */
  ghost predicate LifeCycle(h: seq<Status>) {
    && (forall k :: 0 <= k < |h| - 1 ==> !Terminal(h[k]))
    && (forall k :: 0 <= k < |h| - 1 ==> TableEdge(h[k], h[k + 1]) || (Terminal(h[k + 1]) && k + 2 == |h|))
    && (forall k :: 0 < k < |h| ==> h[k] != PendingPayment)
  }

  lemma LongerLifeCycle(first: Status, rest: seq<Status>)
    requires LifeCycle(rest) && rest != [] && Advances(first, rest[0])
    ensures LifeCycle([first] + rest)
  {
  }

  /** A trail starts at the row's status, or at PENDING_PAYMENT if the row is still to come. */
  lemma {:induction false} TrailStarts(s: Store, steps: seq<Step>, i: nat)
    requires Inv(s)
    ensures var h := Trail(s, steps, i);
            && (i < |s.orders| ==> h != [] && h[0] == s.orders[i].status)
            && (|s.orders| <= i && h != [] ==> h[0] == PendingPayment)
    decreases |steps|
  {
    if steps != [] {
      StepKeepsInv(s, steps[0]);
      TrailStarts(After(s, steps[0]), steps[1..], i);
    }
  }

  /** It ends at the status the row has in the end. */
  lemma {:induction false} TrailEnds(s: Store, steps: seq<Step>, i: nat)
    requires i < |Run(s, steps).orders|
    ensures var h := Trail(s, steps, i); h != [] && h[|h| - 1] == Run(s, steps).orders[i].status
    decreases |steps|
  {
    if steps != [] {
      TrailEnds(After(s, steps[0]), steps[1..], i);
    }
  }

  lemma {:induction false} TrailIsALifeCycle(s: Store, steps: seq<Step>, i: nat)
    requires Inv(s)
    ensures LifeCycle(Trail(s, steps, i))
    decreases |steps|
  {
    if steps != [] {
      var t := After(s, steps[0]);
      StepKeepsInv(s, steps[0]);
      TrailStarts(t, steps[1..], i);
      TrailIsALifeCycle(t, steps[1..], i);
      if i < |s.orders| && t.orders[i].status != s.orders[i].status {
        assert RowStep(s.orders[i], t.orders[i]);
        LongerLifeCycle(s.orders[i].status, Trail(t, steps[1..], i));
      }
    }
  }

  /**
    Every order of every run starts at PENDING_PAYMENT, never returns to it, follows table edges
    (the first one read as leaving PROCESSING) and leaves the table at most once, by a jump into a
    terminal status that ends its history.
   */
  lemma EveryHistoryIsALifeCycle(steps: seq<Step>, i: nat)
    requires i < |Run(EMPTY, steps).orders|
    ensures var h := Trail(EMPTY, steps, i);
            && LifeCycle(h) && |h| > 0 && h[0] == PendingPayment
            && h[|h| - 1] == Run(EMPTY, steps).orders[i].status
  {
    TrailStarts(EMPTY, steps, i);
    TrailEnds(EMPTY, steps, i);
    TrailIsALifeCycle(EMPTY, steps, i);
  }
}
