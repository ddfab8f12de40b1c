/**
  At-least-once, out-of-order delivery: redelivery changes nothing, early delivery changes nothing
  once redelivered, and the outcome of an order is fixed by the first terminal event it receives.
 */
module SwapDelivery {
  import opened Common
  import opened SwapStateMachine
  import opened SwapTables
  import opened SwapInvariant

  // ----- redelivery

  predicate Processed(s: Store, k: EventKey) {
    k in s.events && s.events[k]
  }

  /** A delivery whose order is found either rolls back or marks its key processed. */
  lemma HandleProcesses(s: Store, i: nat, p: Payload)
    requires i < |s.orders|
    ensures Handle(s, i, p).Committed? ==> Processed(Handle(s, i, p).store, KeyOf(p))
  {
  }

  /** Delivering any payload twice in a row is delivering it once, in every state. */
  lemma DeliverTwice(s: Store, p: Payload)
    ensures After(After(s, Deliver(p)), Deliver(p)) == After(s, Deliver(p))
  {
    var s1 := WithEvent(s, KeyOf(p));
    var i := Locate(s1.orders, p);
    if !s1.events[KeyOf(p)] && i < |s1.orders| && !QuoteMismatch(s1.orders[i], p) {
      HandleProcesses(BindOrder(s1, i, p.orderId), i, p);
    }
  }

  lemma ProcessedIsInert(s: Store, p: Payload)
    requires Processed(s, KeyOf(p))
    ensures After(s, Deliver(p)) == s
  {
  }

  lemma HandleKeepsProcessed(s: Store, i: nat, p: Payload, k: EventKey)
    requires i < |s.orders| && Processed(s, k)
    ensures Handle(s, i, p).Committed? ==> Processed(Handle(s, i, p).store, k)
  {
  }

  lemma DeliveryKeepsProcessed(s: Store, p: Payload, k: EventKey)
    requires Processed(s, k)
    ensures Processed(After(s, Deliver(p)), k)
  {
    var s1 := WithEvent(s, KeyOf(p));
    var i := Locate(s1.orders, p);
    DeliverCases(s, p);
    if !s1.events[KeyOf(p)] && i < |s1.orders| && !QuoteMismatch(s1.orders[i], p) {
      HandleKeepsProcessed(BindOrder(s1, i, p.orderId), i, p, k);
    }
  }

  /** A processed key stays processed, whatever happens next. */
  lemma ProcessedStays(s: Store, step: Step, k: EventKey)
    requires Processed(s, k)
    ensures Processed(After(s, step), k)
  {
    if step.Deliver? { DeliveryKeepsProcessed(s, step.payload, k); }
  }

  /** The run without the deliveries of one key. */
  function Without(steps: seq<Step>, k: EventKey): seq<Step>
    decreases |steps|
  {
    if steps == [] then []
    else if steps[0].Deliver? && KeyOf(steps[0].payload) == k then Without(steps[1..], k)
    else [steps[0]] + Without(steps[1..], k)
  }

  /** Once a key is processed, every later delivery of it can be removed from the run. */
  lemma {:induction false} RedeliveriesAreRemovable(s: Store, steps: seq<Step>, k: EventKey)
    requires Processed(s, k)
    ensures Run(s, steps) == Run(s, Without(steps, k))
    decreases |steps|
  {
    if steps != [] {
      if steps[0].Deliver? && KeyOf(steps[0].payload) == k {
        ProcessedIsInert(s, steps[0].payload);
        RedeliveriesAreRemovable(s, steps[1..], k);
      } else {
        ProcessedStays(s, steps[0], k);
        RedeliveriesAreRemovable(After(s, steps[0]), steps[1..], k);
        var w := Without(steps, k);
        assert w[0] == steps[0] && w[1..] == Without(steps[1..], k);
      }
    }
  }

  // ----- an event that races the persistence of its quote

  lemma IndexByOrderIdAppends(orders: seq<Order>, row: Order, oid: string)
    requires row.orderId.None?
    ensures var i := IndexByOrderId(orders, oid);
            IndexByOrderId(orders + [row], oid) == if i < |orders| then i else |orders| + 1
  {
    var all := orders + [row];
    var i, i' := IndexByOrderId(orders, oid), IndexByOrderId(all, oid);
    assert i < |orders| ==> all[i] == orders[i];
    assert i' < |orders| ==> all[i'] == orders[i'];
  }

  /** A located row stays located when another quote's row is appended. */
  lemma LocateAppends(orders: seq<Order>, row: Order, p: Payload)
    requires row.orderId.None? && Locate(orders, p) < |orders|
    ensures Locate(orders + [row], p) == Locate(orders, p)
  {
    IndexByOrderIdAppends(orders, row, p.orderId);
    if IndexByOrderId(orders, p.orderId) == |orders| {
      var j := IndexUnbound(orders, p.quoteId.value);
      var j' := IndexUnbound(orders + [row], p.quoteId.value);
      assert (orders + [row])[j] == orders[j];
      assert orders[j'] == (orders + [row])[j'];
    }
  }

  /** CreateQuote reads only these columns, which no webhook changes. */
  ghost predicate SameQuotes(s: Store, t: Store) {
    && s.invoices == t.invoices
    && |s.orders| == |t.orders|
    && forall i :: 0 <= i < |s.orders| ==>
         && s.orders[i].invoiceId == t.orders[i].invoiceId
         && s.orders[i].quoteId == t.orders[i].quoteId
         && s.orders[i].receiveRequestId == t.orders[i].receiveRequestId
  }

  lemma HandleKeepsQuotes(s: Store, i: nat, p: Payload)
    requires i < |s.orders|
    ensures Handle(s, i, p).Committed? ==> SameQuotes(s, Handle(s, i, p).store)
  {
  }

  lemma DeliverKeepsQuotes(s: Store, p: Payload)
    ensures SameQuotes(s, After(s, Deliver(p)))
  {
    var s1 := WithEvent(s, KeyOf(p));
    var i := Locate(s1.orders, p);
    DeliverCases(s, p);
    if !s1.events[KeyOf(p)] && i < |s1.orders| && !QuoteMismatch(s1.orders[i], p) {
      HandleKeepsQuotes(BindOrder(s1, i, p.orderId), i, p);
    }
  }

  /** The store with one more invoice and its pending order. */
  function Added(s: Store, q: Quote): Store {
    s.(invoices := s.invoices[q.invoiceId := q.amountMsat], orders := s.orders + [NewOrder(q)])
  }

  lemma RequestOutcomeAgrees(s: Store, t: Store, q: Quote)
    requires SameQuotes(s, t)
    ensures CreateQuote(s, q).Committed? == CreateQuote(t, q).Committed?
    ensures CreateQuote(s, q) == Committed(Added(s, q)) ==> CreateQuote(t, q) == Committed(Added(t, q))
    ensures After(s, Request(q)) == s || After(s, Request(q)) == Added(s, q)
    ensures After(s, Request(q)) == s ==> After(t, Request(q)) == t
  {
  }

  /** Handling an event commutes with adding an order for another invoice. */
  lemma HandleThenAdd(s: Store, i: nat, p: Payload, q: Quote)
    requires i < |s.orders| && q.invoiceId !in s.invoices && s.orders[i].invoiceId in s.invoices
    ensures var h, h' := Handle(s, i, p), Handle(Added(s, q), i, p);
            h.Committed? == h'.Committed? && (h.Committed? ==> h'.store == Added(h.store, q))
  {
    var a := Added(s, q);
    assert a.orders[i] == s.orders[i];
    var h, h' := Handle(s, i, p), Handle(a, i, p);
    if h.Committed? && h'.Committed? {
      assert h'.store.orders == Added(h.store, q).orders;
    }
  }

  lemma AddedDelivery(s: Store, p: Payload, q: Quote)
    requires Inv(s) && !Processed(s, KeyOf(p)) && Locate(s.orders, p) < |s.orders| && q.invoiceId !in s.invoices
    ensures After(Added(s, q), Deliver(p)) == Added(After(s, Deliver(p)), q)
  {
    var i, a := Locate(s.orders, p), Added(s, q);
    LocateAppends(s.orders, NewOrder(q), p);
    DeliveryHandles(s, i, p);
    DeliveryHandles(a, i, p);
    assert a.orders[i] == s.orders[i] && GoodRow(s, s.orders[i]);
    if !QuoteMismatch(s.orders[i], p) {
      var b := BindOrder(WithEvent(s, KeyOf(p)), i, p.orderId);
      assert BindOrder(WithEvent(a, KeyOf(p)), i, p.orderId) == Added(b, q);
      HandleThenAdd(b, i, p, q);
    }
  }

  /** A delivery that finds its order commutes with the creation of any quote. */
  lemma FoundDeliveryCommutes(s: Store, p: Payload, q: Quote)
    requires Inv(s) && !Processed(s, KeyOf(p)) && Locate(s.orders, p) < |s.orders|
    ensures After(After(s, Request(q)), Deliver(p)) == After(After(s, Deliver(p)), Request(q))
  {
    DeliverKeepsQuotes(s, p);
    RequestOutcomeAgrees(s, After(s, Deliver(p)), q);
    if After(s, Request(q)) != s {
      AddedDelivery(s, p, q);
    }
  }

  /** The request creates its order. */
  predicate Creates(s: Store, q: Quote) {
    SendableAmount(q.amountMsat) && q.invoiceId !in s.invoices && !Collides(s.orders, q)
  }

  /** The handler cannot read the event for a new order of this quote: unknown, or an amount it writes is unparsable. */
  predicate Unreadable(p: Payload, q: Quote) {
    || p.event.UnknownEvent?
    || (p.event == OrderCompleted && p.amountOut == Malformed)
    || ((p.event == OrderCompleted || p.event == OrderSwapping) && p.feeAmount == Malformed
        && (!Truthy(p.feeAsset) || p.feeAsset == Some(q.feeAsset)))
  }

  /**
    The early delivery leaves a dedupe row that nothing processes: the key is new, no order takes the
    event yet, the request creates the order it is for, and the handler cannot read it.
   */
  predicate LeavesARow(s: Store, p: Payload, q: Quote) {
    && KeyOf(p) !in s.events && Locate(s.orders, p) == |s.orders|
    && Creates(s, q) && q.quoteId != "" && p.quoteId == Some(q.quoteId)
    && Unreadable(p, q)
  }

  /** What a request does to the store. */
  lemma RequestEffect(s: Store, q: Quote)
    ensures After(s, Request(q)) == if Creates(s, q) then Added(s, q) else s
  {
    if HasOrder(s.orders, q.invoiceId) {
      assert Collides(s.orders, q);
    }
  }

  /** The new row is found exactly by an unlocated payload that carries its quote. */
  lemma LocateNewRow(orders: seq<Order>, q: Quote, p: Payload)
    requires Locate(orders, p) == |orders|
    ensures Locate(orders + [NewOrder(q)], p) ==
            if Truthy(p.quoteId) && p.quoteId == Some(q.quoteId) then |orders| else |orders| + 1
  {
    IndexByOrderIdAppends(orders, NewOrder(q), p.orderId);
    if Truthy(p.quoteId) {
      UnboundAppends(orders, NewOrder(q), p.quoteId.value);
    }
  }

  lemma UnboundAppends(orders: seq<Order>, row: Order, quote: string)
    requires IndexUnbound(orders, quote) == |orders| && row.orderId.None?
    ensures IndexUnbound(orders + [row], quote) == if row.quoteId == Some(quote) then |orders| else |orders| + 1
  {
    var all := orders + [row];
    assert all[|orders|] == row && forall j :: 0 <= j < |orders| ==> all[j] == orders[j];
  }

  /** Handling an event for a new order throws exactly when it is unreadable. */
  lemma NewOrderThrows(s: Store, i: nat, p: Payload, q: Quote)
    requires i < |s.orders| && s.orders[i] == NewOrder(q).(orderId := Some(p.orderId))
    ensures Handle(s, i, p) == RolledBack <==> Unreadable(p, q)
  {
    if Mapped(p.event) { FirstEventIsApplied(p.event); }
  }

  /** The redelivery throws exactly when it reaches the new order and cannot be read. */
  lemma RedeliveryThrowsIff(s: Store, p: Payload, q: Quote)
    requires KeyOf(p) !in s.events && Locate(s.orders, p) == |s.orders|
    ensures ApplyEvent(After(s, Request(q)), p) == RolledBack <==> LeavesARow(s, p, q)
  {
    RequestEffect(s, q);
    if Creates(s, q) {
      AddedThrowsIff(s, p, q);
    }
  }

  lemma AddedThrowsIff(s: Store, p: Payload, q: Quote)
    requires KeyOf(p) !in s.events && Locate(s.orders, p) == |s.orders|
    ensures ApplyEvent(Added(s, q), p) == RolledBack <==>
              q.quoteId != "" && p.quoteId == Some(q.quoteId) && Unreadable(p, q)
  {
    var a, i := Added(s, q), |s.orders|;
    LocateNewRow(s.orders, q, p);
    if Truthy(p.quoteId) && p.quoteId == Some(q.quoteId) {
      assert a.orders[i] == NewOrder(q);
      NewOrderThrows(BindOrder(WithEvent(a, KeyOf(p)), i, p.orderId), i, p, q);
    }
  }

  /**
    An event delivered before its quote is persisted does no harm: delivering, persisting and
    redelivering ends in the state of persisting and then delivering, for every payload and quote,
    whether or not they concern the same order. All that can remain is an unprocessed dedupe row,
    exactly when the key is new, the request creates the order and the event cannot be read.
   */
  lemma EarlyDeliveryIsHarmless(s: Store, p: Payload, q: Quote)
    requires Inv(s)
    ensures var early, late := Run(s, [Deliver(p), Request(q), Deliver(p)]), Run(s, [Request(q), Deliver(p)]);
            && early.invoices == late.invoices && early.orders == late.orders && early.refunds == late.refunds
            && early == (if LeavesARow(s, p, q) then WithEvent(late, KeyOf(p)) else late)
            && (early == late <==> !LeavesARow(s, p, q))
  {
    var d := After(s, Deliver(p));
    var r := After(s, Request(q));
    Unfold3(s, Deliver(p), Request(q), Deliver(p));
    Unfold2(s, Request(q), Deliver(p));
    if KeyOf(p) !in s.events && Locate(s.orders, p) == |s.orders| { RedeliveryThrowsIff(s, p, q); }
    RequestKeepsEvents(s, q);
    if d != s {
      DeliverKeepsQuotes(s, p);
      RequestOutcomeAgrees(s, d, q);
      if Locate(s.orders, p) < |s.orders| {
        FoundDeliveryCommutes(s, p, q);
        DeliverTwice(r, p);
        DeliveryStillInert(s, p, q);
      } else {
        assert d == WithEvent(s, KeyOf(p));
        UpsertIsAbsorbed(r, p);
        assert After(d, Request(q)) == WithEvent(r, KeyOf(p));
      }
    } else {
      NothingNewNothingLeft(s, p);
    }
  }

  lemma RequestKeepsEvents(s: Store, q: Quote)
    ensures After(s, Request(q)).events == s.events
  {
  }

  /** A delivery without effect had its key on record, or found its order. */
  lemma NothingNewNothingLeft(s: Store, p: Payload)
    requires After(s, Deliver(p)) == s
    ensures KeyOf(p) in s.events || Locate(s.orders, p) < |s.orders|
  {
  }

  lemma UpsertIsAbsorbed(s: Store, p: Payload)
    requires !Processed(s, KeyOf(p))
    ensures After(WithEvent(s, KeyOf(p)), Deliver(p)) ==
            if ApplyEvent(s, p) == RolledBack then WithEvent(s, KeyOf(p)) else After(s, Deliver(p))
  {
  }

  /** An event of a kind the service does not know, delivered early, leaves its dedupe row behind. */
  lemma UnknownEventLeavesARow(p: Payload, q: Quote)
    requires SendableAmount(q.amountMsat) && q.quoteId != "" && p.quoteId == Some(q.quoteId) && p.event.UnknownEvent?
    ensures Run(EMPTY, [Deliver(p), Request(q), Deliver(p)]) != Run(EMPTY, [Request(q), Deliver(p)])
  {
    EarlyDeliveryIsHarmless(EMPTY, p, q);
  }

  /** After a found delivery, creating a quote leaves its redelivery without effect. */
  lemma DeliveryStillInert(s: Store, p: Payload, q: Quote)
    requires Inv(s) && Locate(s.orders, p) < |s.orders| && After(s, Deliver(p)) != s
    ensures var t := After(After(s, Deliver(p)), Request(q)); After(t, Deliver(p)) == t
  {
    var s1 := WithEvent(s, KeyOf(p));
    var i := Locate(s.orders, p);
    HandleProcesses(BindOrder(s1, i, p.orderId), i, p);
    ProcessedStays(After(s, Deliver(p)), Request(q), KeyOf(p));
    ProcessedIsInert(After(After(s, Deliver(p)), Request(q)), p);
  }

  lemma Unfold2(s: Store, a: Step, b: Step)
    ensures Run(s, [a, b]) == After(After(s, a), b)
  {
    assert [a, b][1..] == [b] && [b][1..] == [];
    assert Run(After(s, a), [b]) == Run(After(After(s, a), b), []);
  }

  lemma Unfold3(s: Store, a: Step, b: Step, c: Step)
    ensures Run(s, [a, b, c]) == After(After(After(s, a), b), c)
  {
    assert [a, b, c][1..] == [b, c];
    Unfold2(After(s, a), b, c);
  }

  // ----- the first terminal event wins

  /**
    Row i is the order oid for the whole run: it is bound to oid already, or it is unbound, no other
    row is bound to oid, and in the run exactly the payloads of oid carry its quote.
   */
  ghost predicate Linked(s: Store, i: nat, oid: string, steps: seq<Step>) {
    && i < |s.orders|
    && (s.orders[i].orderId == Some(oid) ||
        (&& s.orders[i].orderId.None?
         && Truthy(s.orders[i].quoteId)
         && (forall j :: 0 <= j < |s.orders| ==> s.orders[j].orderId != Some(oid))
         && (forall k :: 0 <= k < |steps| && steps[k].Deliver? ==>
               (steps[k].payload.orderId == oid <==> steps[k].payload.quoteId == s.orders[i].quoteId))))
  }

  /** No amount the handler would write from this payload is unparsable. */
  predicate Readable(row: Order, p: Payload) {
    && (p.event == OrderCompleted ==> p.amountOut != Malformed)
    && ((p.event == OrderCompleted || p.event == OrderSwapping) && (!Truthy(p.feeAsset) || p.feeAsset == row.feeAsset)
        ==> p.feeAmount != Malformed)
  }

  /** The step delivers to order oid a terminal event that the handler can read. */
  predicate Concludes(row: Order, oid: string, step: Step) {
    && step.Deliver?
    && step.payload.orderId == oid
    && TerminalEvent(step.payload.event)
    && !QuoteMismatch(row, step.payload)
    && Readable(row, step.payload)
  }

  /** The amount a terminal event settles: the delivered amount of a completion, nothing otherwise. */
  function SettledOut(p: Payload): Option<int> {
    if p.event == OrderCompleted && p.amountOut.Units? then Some(p.amountOut.n) else None
  }

  /** Index of the first concluding step, or |steps|. Only columns that never change are read. */
  function FirstConclusion(row: Order, oid: string, steps: seq<Step>): (k: nat)
    ensures k <= |steps|
    ensures k < |steps| ==> Concludes(row, oid, steps[k])
    ensures forall j :: 0 <= j < k ==> !Concludes(row, oid, steps[j])
    decreases |steps|
  {
    if steps == [] || Concludes(row, oid, steps[0]) then 0
    else 1 + FirstConclusion(row, oid, steps[1..])
  }

  lemma FirstConclusionReadsFixedColumns(a: Order, b: Order, oid: string, steps: seq<Step>)
    requires a.quoteId == b.quoteId && a.feeAsset == b.feeAsset
    ensures FirstConclusion(a, oid, steps) == FirstConclusion(b, oid, steps)
    decreases |steps|
  {
  }

  /** Payloads of oid locate row i, and no other payload does. */
  lemma LinkedLocates(s: Store, i: nat, oid: string, steps: seq<Step>)
    requires Inv(s) && Linked(s, i, oid, steps) && steps != [] && steps[0].Deliver?
    ensures steps[0].payload.orderId == oid <==> Locate(s.orders, steps[0].payload) == i
  {
  }

  lemma LinkedSurvives(s: Store, i: nat, oid: string, steps: seq<Step>)
    requires Inv(s) && Linked(s, i, oid, steps) && steps != []
    ensures Linked(After(s, steps[0]), i, oid, steps[1..])
  {
    var t := After(s, steps[0]);
    StepKeepsInv(s, steps[0]);
    assert RowStep(s.orders[i], t.orders[i]);
    if s.orders[i].orderId.None? {
      if steps[0].Deliver? {
        LinkedLocates(s, i, oid, steps);
        OnlyLocatedIsBound(s, steps[0].payload);
      }
      assert forall k :: 0 <= k < |steps[1..]| ==> steps[1..][k] == steps[k + 1];
    }
  }

  /** A delivery gives its orderId to the row it locates and touches no other row. */
  lemma OnlyLocatedIsBound(s: Store, p: Payload)
    ensures var t := After(s, Deliver(p));
            && |t.orders| == |s.orders|
            && (forall j :: 0 <= j < |s.orders| && j != Locate(s.orders, p) ==> t.orders[j] == s.orders[j])
            && (Locate(s.orders, p) < |s.orders| && t.orders[Locate(s.orders, p)] != s.orders[Locate(s.orders, p)] ==>
                  t.orders[Locate(s.orders, p)].orderId == Some(p.orderId))
  {
    var s1 := WithEvent(s, KeyOf(p));
    var i := Locate(s.orders, p);
    if !s1.events[KeyOf(p)] && i < |s1.orders| && !QuoteMismatch(s1.orders[i], p) {
      HandleTouches(BindOrder(s1, i, p.orderId), i, p);
    }
  }

  lemma HandleTouches(s: Store, i: nat, p: Payload)
    requires i < |s.orders|
    ensures Handle(s, i, p).Committed? ==>
              var t := Handle(s, i, p).store;
              && |t.orders| == |s.orders|
              && t.orders[i].orderId == s.orders[i].orderId
              && forall j :: 0 <= j < |s.orders| && j != i ==> t.orders[j] == s.orders[j]
  {
  }

  /** A terminal key of oid cannot be processed while row i is live. */
  lemma TerminalKeyIsFresh(s: Store, i: nat, oid: string, steps: seq<Step>, p: Payload)
    requires Inv(s) && Linked(s, i, oid, steps) && !Terminal(s.orders[i].status)
    requires p.orderId == oid && TerminalEvent(p.event)
    ensures !Processed(s, KeyOf(p))
  {
  }

  /** On a live linked order, a concluding step concludes it and no other step does. */
  lemma OneStep(s: Store, i: nat, oid: string, steps: seq<Step>)
    requires Inv(s) && Linked(s, i, oid, steps) && steps != [] && !Terminal(s.orders[i].status)
    ensures var t := After(s, steps[0]);
            && i < |t.orders|
            && (Concludes(s.orders[i], oid, steps[0]) ==>
                  && t.orders[i].status == StatusOf(steps[0].payload.event)
                  && t.orders[i].actualOut == SettledOut(steps[0].payload))
            && (!Concludes(s.orders[i], oid, steps[0]) ==> !Terminal(t.orders[i].status))
  {
    var t := After(s, steps[0]);
    StepKeepsInv(s, steps[0]);
    assert GoodRow(s, s.orders[i]);
    if steps[0].Deliver? {
      var p := steps[0].payload;
      LinkedLocates(s, i, oid, steps);
      OnlyLocatedIsBound(s, p);
      if p.orderId == oid {
        if TerminalEvent(p.event) {
          TerminalKeyIsFresh(s, i, oid, steps, p);
        }
        OneDelivery(s, i, p);
      }
    }
  }

  /** A fresh delivery to row i is the handling of the bound row. */
  lemma DeliveryHandles(s: Store, i: nat, p: Payload)
    requires i < |s.orders| && Locate(s.orders, p) == i
    ensures var t := After(s, Deliver(p));
            if Processed(s, KeyOf(p)) || QuoteMismatch(s.orders[i], p) then t == s
            else t == Result(s, Handle(BindOrder(WithEvent(s, KeyOf(p)), i, p.orderId), i, p))
  {
  }

  /** row is what the handler makes of a live row before; both are compared on status and amount. */
  ghost predicate Settled(before: Order, row: Order, p: Payload) {
    && (Concludes(before, p.orderId, Deliver(p)) ==> row.status == StatusOf(p.event) && row.actualOut == SettledOut(p))
    && (!Concludes(before, p.orderId, Deliver(p)) ==> !Terminal(row.status))
  }

  lemma HandleSettles(s: Store, i: nat, p: Payload)
    requires i < |s.orders| && GoodRow(s, s.orders[i]) && !Terminal(s.orders[i].status)
    requires !QuoteMismatch(s.orders[i], p)
    ensures var h := Handle(s, i, p);
            && (h.Committed? ==> |h.store.orders| == |s.orders| && Settled(s.orders[i], h.store.orders[i], p))
            && (h.RolledBack? ==> !Concludes(s.orders[i], p.orderId, Deliver(p)))
  {
    if Mapped(p.event) {
      DecideIsSound(s.orders[i].status, p.event);
    }
  }

  lemma OneDelivery(s: Store, i: nat, p: Payload)
    requires i < |s.orders| && Locate(s.orders, p) == i && GoodRow(s, s.orders[i]) && !Terminal(s.orders[i].status)
    requires TerminalEvent(p.event) ==> !Processed(s, KeyOf(p))
    ensures var t := After(s, Deliver(p)); i < |t.orders| && Settled(s.orders[i], t.orders[i], p)
  {
    DeliveryHandles(s, i, p);
    if !QuoteMismatch(s.orders[i], p) {
      HandleSettles(BindOrder(WithEvent(s, KeyOf(p)), i, p.orderId), i, p);
    }
  }

  lemma {:induction false} TerminalRowIsFrozen(s: Store, steps: seq<Step>, i: nat)
    requires Inv(s) && i < |s.orders| && Terminal(s.orders[i].status)
    ensures i < |Run(s, steps).orders| && Run(s, steps).orders[i] == s.orders[i]
    decreases |steps|
  {
    if steps != [] {
      StepKeepsInv(s, steps[0]);
      assert RowStep(s.orders[i], After(s, steps[0]).orders[i]);
      TerminalRowIsFrozen(After(s, steps[0]), steps[1..], i);
    }
  }

  /** Row i of the final store is as the first concluding step made it, or still live. */
  ghost predicate EndsAs(end: Store, i: nat, row: Order, oid: string, steps: seq<Step>) {
    var k := FirstConclusion(row, oid, steps);
    && i < |end.orders|
    && (k == |steps| ==> !Terminal(end.orders[i].status))
    && (k < |steps| ==> && end.orders[i].status == StatusOf(steps[k].payload.event)
                        && end.orders[i].actualOut == SettledOut(steps[k].payload))
  }

  lemma EndsAsShifts(end: Store, i: nat, row: Order, later: Order, oid: string, steps: seq<Step>)
    requires steps != [] && !Concludes(row, oid, steps[0]) && later.quoteId == row.quoteId
    requires later.feeAsset == row.feeAsset
    requires EndsAs(end, i, later, oid, steps[1..])
    ensures EndsAs(end, i, row, oid, steps)
  {
    FirstConclusionReadsFixedColumns(row, later, oid, steps[1..]);
  }

  lemma ConcludesNow(s: Store, steps: seq<Step>, i: nat, oid: string)
    requires Inv(s) && Linked(s, i, oid, steps) && !Terminal(s.orders[i].status)
    requires steps != [] && Concludes(s.orders[i], oid, steps[0])
    ensures EndsAs(Run(s, steps), i, s.orders[i], oid, steps)
  {
    OneStep(s, i, oid, steps);
    StepKeepsInv(s, steps[0]);
    TerminalRowIsFrozen(After(s, steps[0]), steps[1..], i);
  }

  /**
    In every run, whatever else is interleaved, a live order ends in the status and with the
    delivered amount of the first readable terminal event delivered to it, and stays live if there
    is none.
   */
  lemma {:induction false} FirstTerminalWins(s: Store, steps: seq<Step>, i: nat, oid: string)
    requires Inv(s) && Linked(s, i, oid, steps) && !Terminal(s.orders[i].status)
    ensures EndsAs(Run(s, steps), i, s.orders[i], oid, steps)
    decreases |steps|
  {
    if steps != [] {
      if Concludes(s.orders[i], oid, steps[0]) {
        ConcludesNow(s, steps, i, oid);
      } else {
        var t := After(s, steps[0]);
        OneStep(s, i, oid, steps);
        StepKeepsInv(s, steps[0]);
        assert RowStep(s.orders[i], t.orders[i]);
        LinkedSurvives(s, i, oid, steps);
        FirstTerminalWins(t, steps[1..], i, oid);
        EndsAsShifts(Run(s, steps), i, s.orders[i], t.orders[i], oid, steps);
      }
    }
  }

  // ----- the refund case of an order

  /** The step puts order oid on a recovery hold. */
  predicate Holds(row: Order, oid: string, step: Step) {
    step.Deliver? && step.payload.orderId == oid && step.payload.event == RecoveryRequired &&
        !QuoteMismatch(row, step.payload)
  }

  predicate HasCase(s: Store, i: nat)
    requires i < |s.orders|
  {
    s.orders[i].invoiceId in s.refunds
  }

  /** The case of row i opens only by a delivery that locates row i. */
  lemma OtherStepsOpenNoCase(s: Store, step: Step, i: nat)
    requires Inv(s) && i < |s.orders| && !(step.Deliver? && Locate(s.orders, step.payload) == i)
    ensures s.orders[i].invoiceId in After(s, step).refunds <==> HasCase(s, i)
  {
    if step.Deliver? {
      var s1, p := WithEvent(s, KeyOf(step.payload)), step.payload;
      var j := Locate(s1.orders, p);
      if !s1.events[KeyOf(p)] && j < |s1.orders| && !QuoteMismatch(s1.orders[j], p) {
        assert s.orders[j].invoiceId != s.orders[i].invoiceId;
        HandleOpensOwnCase(BindOrder(s1, j, p.orderId), j, p);
      }
    }
  }

  lemma HandleOpensOwnCase(s: Store, j: nat, p: Payload)
    requires j < |s.orders|
    ensures Handle(s, j, p).Committed? ==>
              forall id :: id != s.orders[j].invoiceId ==> (id in Handle(s, j, p).store.refunds <==> id in s.refunds)
  {
  }

  /** Exactly when handling an event leaves its row with a case. */
  lemma HandleCase(s: Store, i: nat, p: Payload)
    requires i < |s.orders| && GoodRow(s, s.orders[i])
    ensures Result(s, Handle(s, i, p)).refunds.Keys ==
            s.refunds.Keys + if !Terminal(s.orders[i].status) && (p.event == RecoveryRequired || p.event == OrderFailed)
                             then {s.orders[i].invoiceId} else {}
  {
    if Mapped(p.event) {
      DecideIsSound(s.orders[i].status, p.event);
    }
  }

  lemma DeliveryCase(s: Store, i: nat, p: Payload)
    requires Inv(s) && i < |s.orders| && Locate(s.orders, p) == i && !Processed(s, KeyOf(p))
    requires !QuoteMismatch(s.orders[i], p)
    ensures s.orders[i].invoiceId in After(s, Deliver(p)).refunds <==>
              || HasCase(s, i)
              || (!Terminal(s.orders[i].status) && (p.event == RecoveryRequired || p.event == OrderFailed))
  {
    DeliveryHandles(s, i, p);
    var b := BindOrder(WithEvent(s, KeyOf(p)), i, p.orderId);
    assert GoodRow(s, s.orders[i]);
    HandleCase(b, i, p);
  }

  /** A concluded order gets no case any more. */
  lemma TerminalOpensNoCase(s: Store, step: Step, i: nat)
    requires Inv(s) && i < |s.orders| && Terminal(s.orders[i].status)
    ensures s.orders[i].invoiceId in After(s, step).refunds <==> HasCase(s, i)
  {
    if step.Deliver? && Locate(s.orders, step.payload) == i {
      var p := step.payload;
      DeliveryHandles(s, i, p);
      if !Processed(s, KeyOf(p)) && !QuoteMismatch(s.orders[i], p) { DeliveryCase(s, i, p); }
    } else {
      OtherStepsOpenNoCase(s, step, i);
    }
  }

  lemma {:induction false} TerminalCaseIsFrozen(s: Store, steps: seq<Step>, i: nat)
    requires Inv(s) && i < |s.orders| && Terminal(s.orders[i].status)
    ensures s.orders[i].invoiceId in Run(s, steps).refunds <==> HasCase(s, i)
    decreases |steps|
  {
    if steps != [] {
      TerminalOpensNoCase(s, steps[0], i);
      StepKeepsInv(s, steps[0]);
      assert RowStep(s.orders[i], After(s, steps[0]).orders[i]);
      TerminalCaseIsFrozen(After(s, steps[0]), steps[1..], i);
    }
  }

  /** A recovery hold of a live order that was processed before has its case. */
  lemma ProcessedHoldHasCase(s: Store, i: nat, oid: string, steps: seq<Step>, p: Payload)
    requires Inv(s) && Linked(s, i, oid, steps) && !Terminal(s.orders[i].status)
    requires p.orderId == oid && p.event == RecoveryRequired && Processed(s, KeyOf(p))
    ensures HasCase(s, i)
  {
    assert Answered(s, KeyOf(p));
    var j :| 0 <= j < |s.orders| && Answers(s.orders[j], s.refunds, KeyOf(p));
    assert j == i;
  }

  /** One step of a live linked order: it has a case afterwards if it had one, fails, or is held. */
  lemma OneStepCase(s: Store, i: nat, oid: string, steps: seq<Step>)
    requires Inv(s) && Linked(s, i, oid, steps) && steps != [] && !Terminal(s.orders[i].status)
    ensures s.orders[i].invoiceId in After(s, steps[0]).refunds <==>
              || HasCase(s, i) || Holds(s.orders[i], oid, steps[0])
              || (Concludes(s.orders[i], oid, steps[0]) && steps[0].payload.event == OrderFailed)
  {
    if steps[0].Deliver? && Locate(s.orders, steps[0].payload) == i {
      var p := steps[0].payload;
      LinkedLocates(s, i, oid, steps);
      DeliveryHandles(s, i, p);
      if TerminalEvent(p.event) { TerminalKeyIsFresh(s, i, oid, steps, p); }
      if p.event == RecoveryRequired && Processed(s, KeyOf(p)) { ProcessedHoldHasCase(s, i, oid, steps, p); }
      if !Processed(s, KeyOf(p)) && !QuoteMismatch(s.orders[i], p) { DeliveryCase(s, i, p); }
    } else {
      if steps[0].Deliver? { LinkedLocates(s, i, oid, steps); }
      OtherStepsOpenNoCase(s, steps[0], i);
    }
  }

  /** Some step before k holds the order. */
  ghost predicate HeldBefore(row: Order, oid: string, steps: seq<Step>, k: nat)
    requires k <= |steps|
  {
    exists h :: 0 <= h < k && Holds(row, oid, steps[h])
  }

  ghost predicate CaseOpens(row: Order, oid: string, steps: seq<Step>) {
    var k := FirstConclusion(row, oid, steps);
    HeldBefore(row, oid, steps, k) || (k < |steps| && steps[k].payload.event == OrderFailed)
  }

  lemma CaseOpensShifts(row: Order, later: Order, oid: string, steps: seq<Step>)
    requires steps != [] && !Concludes(row, oid, steps[0]) && later.quoteId == row.quoteId
    requires later.feeAsset == row.feeAsset
    ensures CaseOpens(row, oid, steps) <==> Holds(row, oid, steps[0]) || CaseOpens(later, oid, steps[1..])
  {
    var tail := steps[1..];
    FirstConclusionReadsFixedColumns(row, later, oid, tail);
    var k := FirstConclusion(later, oid, tail);
    assert FirstConclusion(row, oid, steps) == k + 1;
    if HeldBefore(row, oid, steps, k + 1) {
      var h :| 0 <= h < k + 1 && Holds(row, oid, steps[h]);
      if h > 0 { assert Holds(later, oid, tail[h - 1]); }
    }
    if HeldBefore(later, oid, tail, k) {
      var h :| 0 <= h < k && Holds(later, oid, tail[h]);
      assert Holds(row, oid, steps[h + 1]);
    }
  }

  /**
    In every run a live order ends with a refund case exactly when it had one, was put on a recovery
    hold before its first terminal event, or that first terminal event says that it failed.
   */
  lemma {:induction false} RefundCaseIff(s: Store, steps: seq<Step>, i: nat, oid: string)
    requires Inv(s) && Linked(s, i, oid, steps) && !Terminal(s.orders[i].status)
    ensures s.orders[i].invoiceId in Run(s, steps).refunds <==> HasCase(s, i) || CaseOpens(s.orders[i], oid, steps)
    decreases |steps|
  {
    if steps != [] {
      var t := After(s, steps[0]);
      OneStep(s, i, oid, steps);
      OneStepCase(s, i, oid, steps);
      StepKeepsInv(s, steps[0]);
      assert RowStep(s.orders[i], t.orders[i]);
      if Concludes(s.orders[i], oid, steps[0]) {
        TerminalCaseIsFrozen(t, steps[1..], i);
      } else {
        LinkedSurvives(s, i, oid, steps);
        RefundCaseIff(t, steps[1..], i, oid);
        CaseOpensShifts(s.orders[i], t.orders[i], oid, steps);
      }
    }
  }

  // ----- delivery order

  /**
    Delivery order does not matter: two runs that deliver the same single terminal payload to an
    order, however often, in whatever order and among whatever other steps, leave it with the same
    status and the same delivered amount.
   */
  lemma DeliveryOrderIsIrrelevant(s: Store, a: seq<Step>, b: seq<Step>, i: nat, oid: string, t: Payload)
    requires Inv(s) && Linked(s, i, oid, a) && Linked(s, i, oid, b) && !Terminal(s.orders[i].status)
    requires Concludes(s.orders[i], oid, Deliver(t)) && Deliver(t) in a && Deliver(t) in b
    requires forall step :: step in a + b && Concludes(s.orders[i], oid, step) ==> step == Deliver(t)
    ensures var x, y := Run(s, a), Run(s, b);
            && i < |x.orders| && i < |y.orders|
            && x.orders[i].status == y.orders[i].status == StatusOf(t.event)
            && x.orders[i].actualOut == y.orders[i].actualOut == SettledOut(t)
  {
    FirstTerminalWins(s, a, i, oid);
    FirstTerminalWins(s, b, i, oid);
    var ka, kb := FirstConclusion(s.orders[i], oid, a), FirstConclusion(s.orders[i], oid, b);
    assert ka < |a| by {
      var j :| 0 <= j < |a| && a[j] == Deliver(t);
    }
    assert kb < |b| by {
      var j :| 0 <= j < |b| && b[j] == Deliver(t);
    }
    assert a[ka] in a + b && b[kb] in a + b;
  }
}
