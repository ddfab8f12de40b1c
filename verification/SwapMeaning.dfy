/**
  What deliveries leave in the tables, told by the columns of what was delivered: one delivery column
  by column, and every column of every table after any run traced back to a step of that run.
 */
module SwapMeaning {
  import opened Common
  import opened SwapStateMachine
  import opened SwapTables
  import opened SwapInvariant
  import opened SwapDelivery
  import opened SwapTexts

  // ----- one delivery

  /** The handler moves an order in this status by this event. */
  predicate Moves(status: Status, e: Event) {
    && Mapped(e) && !Terminal(status)
    && (Terminal(StatusOf(e)) || TableEdge(status, StatusOf(e)))
  }

  /** The event is named after the status of the row. */
  predicate Says(p: Payload, row: Order) {
    Mapped(p.event) && EventName(p.event) == NameFor(StatusText(row.status))
  }

  /** The payload reports a fee in the row's asset, at an event that carries fees. */
  predicate ReportsFee(p: Payload, row: Order) {
    && (p.event == OrderSwapping || p.event == OrderCompleted)
    && p.feeAmount.Units? && (!Truthy(p.feeAsset) || p.feeAsset == row.feeAsset)
  }

  predicate ReportsError(p: Payload) {
    p.event in {OrderFailed, OrderRefunding, OrderRefunded}
  }

  /** b is a after the event of p moved it: each column is the payload's where it reports one. */
  predicate Moved(a: Order, b: Order, p: Payload) {
    && Says(p, b)
    && b.orderId == Some(p.orderId) && b.invoiceId == a.invoiceId && b.quoteId == a.quoteId
    && b.receiveRequestId == a.receiveRequestId && b.feeAsset == a.feeAsset
    && b.actualOut == (if p.event == OrderCompleted && p.amountOut.Units? then Some(p.amountOut.n) else a.actualOut)
    && b.feeAmount == (if ReportsFee(p, a) then p.feeAmount.n else a.feeAmount)
    && b.errorCode == (if ReportsError(p) && Truthy(p.errorCode) then p.errorCode else a.errorCode)
    && b.errorMessage == (if ReportsError(p) && Truthy(p.errorMessage) then p.errorMessage else a.errorMessage)
  }

  /** The payload finds row i, is new, and does not name another quote. */
  predicate Arrives(s: Store, i: nat, p: Payload) {
    && i < |s.orders| && Locate(s.orders, p) == i && !Processed(s, KeyOf(p))
    && (Truthy(p.quoteId) ==> s.orders[i].quoteId == p.quoteId)
  }

  /** The transaction throws. */
  predicate Throws(row: Order, p: Payload) {
    p.event.UnknownEvent? || (Moves(row.status, p.event) && !Readable(row, p))
  }

  lemma HandleWrites(s: Store, i: nat, p: Payload)
    requires i < |s.orders| && !s.orders[i].status.UnknownStatus? && s.orders[i].orderId == Some(p.orderId)
    ensures var a, h := s.orders[i], Handle(s, i, p);
            && (h == RolledBack <==> Throws(a, p))
            && (h.Committed? ==>
                  && |h.store.orders| == |s.orders| && h.store.events == s.events[KeyOf(p) := true]
                  && (forall j :: 0 <= j < |s.orders| && j != i ==> h.store.orders[j] == s.orders[j])
                  && if Moves(a.status, p.event) then Moved(a, h.store.orders[i], p) else h.store.orders[i] == a)
  {
    if Mapped(p.event) {
      DecideIff(s.orders[i].status, p.event);
      EventNamesItsStatus(p.event);
    }
  }

  /**
    A new delivery that finds its order changes nothing exactly when it throws; otherwise its key is
    processed, the order is bound, and the columns are the payload's exactly when the event moves it.
   */
  lemma DeliveryWrites(s: Store, i: nat, p: Payload)
    requires Arrives(s, i, p) && !s.orders[i].status.UnknownStatus?
    ensures var a, t := s.orders[i], After(s, Deliver(p));
            && (ApplyEvent(s, p) == RolledBack <==> Throws(a, p)) && (t == s <==> Throws(a, p))
            && (!Throws(a, p) ==>
                  && Processed(t, KeyOf(p)) && |t.orders| == |s.orders|
                  && if Moves(a.status, p.event) then Moved(a, t.orders[i], p)
                     else t.orders[i] == a.(orderId := Some(p.orderId)))
  {
    DeliveryHandles(s, i, p);
    LocateFinds(s.orders, p);
    HandleWrites(BindOrder(WithEvent(s, KeyOf(p)), i, p.orderId), i, p);
  }

  /** The first readable mapped event of an order leaves the status that the event's name names. */
  lemma FirstEventStoresItsStatus(s: Store, i: nat, p: Payload)
    requires Arrives(s, i, p) && s.orders[i].status == PendingPayment
    requires Mapped(p.event) && Readable(s.orders[i], p)
    ensures var t := After(s, Deliver(p));
            && i < |t.orders| && EventName(p.event) == NameFor(StatusText(t.orders[i].status))
  {
    FirstEventIsApplied(p.event);
    DecideIff(PendingPayment, p.event);
    DeliveryWrites(s, i, p);
  }

  /** A new payload that names another quote than the order it finds is thrown out and changes nothing at all. */
  lemma MismatchChangesNothing(s: Store, i: nat, p: Payload)
    requires i < |s.orders| && Locate(s.orders, p) == i && !Processed(s, KeyOf(p))
    requires Truthy(p.quoteId) && s.orders[i].quoteId != p.quoteId
    ensures ApplyEvent(s, p) == RolledBack && After(s, Deliver(p)) == s
  {
  }

  /** No row is bound to the payload's order, and none that is unbound has its quote. */
  ghost predicate Unclaimed(orders: seq<Order>, p: Payload) {
    forall j :: 0 <= j < |orders| ==>
      && orders[j].orderId != Some(p.orderId)
      && !(Truthy(p.quoteId) && orders[j].orderId.None? && orders[j].quoteId == p.quoteId)
  }

  lemma UnclaimedIff(orders: seq<Order>, p: Payload)
    ensures Unclaimed(orders, p) <==> Locate(orders, p) == |orders|
  {
    LocateFinds(orders, p);
  }

  /** A payload that nothing claims is acknowledged and, if it is new, put on record as not yet processed. */
  lemma UnclaimedIsRecorded(s: Store, p: Payload)
    requires Unclaimed(s.orders, p)
    ensures var t := After(s, Deliver(p));
            && ApplyEvent(s, p).Committed? && t == s.(events := t.events)
            && t.events == if KeyOf(p) in s.events then s.events else s.events[KeyOf(p) := false]
  {
    UnclaimedIff(s.orders, p);
  }

  /** In every run the name of the first readable terminal event names the status in which the order ends. */
  lemma FirstTerminalNamesTheEnd(s: Store, steps: seq<Step>, i: nat, oid: string)
    requires Inv(s) && Linked(s, i, oid, steps) && !Terminal(s.orders[i].status)
    ensures var k, end := FirstConclusion(s.orders[i], oid, steps), Run(s, steps);
            i < |end.orders| && (k < |steps| ==> Says(steps[k].payload, end.orders[i]))
  {
    FirstTerminalWins(s, steps, i, oid);
    var k := FirstConclusion(s.orders[i], oid, steps);
    if k < |steps| { EventNamesItsStatus(steps[k].payload.event); }
  }

  // ----- one quote

  /** No invoice and no order has one of the quote's ids. */
  ghost predicate NewIds(s: Store, q: Quote) {
    && q.invoiceId !in s.invoices
    && forall j :: 0 <= j < |s.orders| ==>
                     && s.orders[j].invoiceId != q.invoiceId && s.orders[j].quoteId != Some(q.quoteId)
                     && s.orders[j].receiveRequestId != Some(q.receiveRequestId)
  }

  /**
    A quote whose amount is a whole number of satoshis from one to ten million and whose ids are new
    adds its invoice and one order that waits for payment; any other request changes nothing, and is
    answered all the same if it replays an order that exists.
   */
  lemma RequestIff(s: Store, q: Quote)
    ensures var t := After(s, Request(q));
            if q.amountMsat % 1000 == 0 && 1 <= q.amountMsat / 1000 <= 10_000_000 && NewIds(s, q) then
              && t.invoices == s.invoices[q.invoiceId := q.amountMsat] && t.orders[..|t.orders| - 1] == s.orders
              && t.events == s.events && t.refunds == s.refunds
              && var row := t.orders[|t.orders| - 1];
                && row.invoiceId == q.invoiceId && row.quoteId == Some(q.quoteId)
                && row.receiveRequestId == Some(q.receiveRequestId)
                && row.feeAmount == q.feeAmount && row.feeAsset == Some(q.feeAsset)
                && row.orderId.None? && row.actualOut.None? && row.errorCode.None? && row.errorMessage.None?
                && StatusText(row.status) == "PENDING_PAYMENT"
            else t == s
    ensures CreateQuote(s, q).Committed? <==>
              && q.amountMsat % 1000 == 0 && 1 <= q.amountMsat / 1000 <= 10_000_000
              && (|| NewIds(s, q)
                  || (q.replayed && exists j :: 0 <= j < |s.orders| && s.orders[j].invoiceId == q.invoiceId))
  {
    RequestEffect(s, q);
    assert Creates(s, q) <==>
           q.amountMsat % 1000 == 0 && 1 <= q.amountMsat / 1000 <= 10_000_000 && NewIds(s, q);
  }

  // ----- every run: nothing in the tables that no step brought

  /** One of the steps delivers p, about the order to which the row is bound. */
  predicate DeliveredTo(row: Order, p: Payload, steps: seq<Step>) {
    Deliver(p) in steps && row.orderId == Some(p.orderId) && (Truthy(p.quoteId) ==> row.quoteId == p.quoteId)
  }

  /** The columns that identify the row are those of a quote that was asked for. */
  ghost predicate WasAskedFor(row: Order, steps: seq<Step>) {
    exists q :: Request(q) in steps && row.invoiceId == q.invoiceId && row.quoteId == Some(q.quoteId)
                && row.receiveRequestId == Some(q.receiveRequestId) && row.feeAsset == Some(q.feeAsset)
  }

  ghost predicate StatusTold(row: Order, steps: seq<Step>) {
    row.status == PendingPayment || exists p :: DeliveredTo(row, p, steps) && Says(p, row)
  }

  ghost predicate AmountTold(row: Order, steps: seq<Step>) {
    || row.actualOut.None?
    || exists p :: DeliveredTo(row, p, steps) && p.event == OrderCompleted && p.amountOut == Units(row.actualOut.value)
  }

  ghost predicate FeeTold(row: Order, steps: seq<Step>) {
    || (exists q :: Request(q) in steps && row.invoiceId == q.invoiceId && row.feeAmount == q.feeAmount)
    || exists p :: DeliveredTo(row, p, steps) && ReportsFee(p, row) && p.feeAmount == Units(row.feeAmount)
  }

  ghost predicate ErrorTold(row: Order, steps: seq<Step>) {
    && (row.errorCode.None? ||
        exists p :: DeliveredTo(row, p, steps) && ReportsError(p) && p.errorCode == row.errorCode)
    && (row.errorMessage.None? ||
        exists p :: DeliveredTo(row, p, steps) && ReportsError(p) && p.errorMessage == row.errorMessage)
  }

  ghost predicate RowTold(row: Order, steps: seq<Step>) {
    && WasAskedFor(row, steps) && StatusTold(row, steps) && AmountTold(row, steps)
    && FeeTold(row, steps) && ErrorTold(row, steps)
  }

  /** The invoice was asked for, in a whole number of satoshis from one to ten million. */
  ghost predicate InvoiceTold(id: string, msat: int, steps: seq<Step>) {
    && msat % 1000 == 0 && 1 <= msat / 1000 <= 10_000_000
    && exists q :: Request(q) in steps && q.invoiceId == id && q.amountMsat == msat
  }

  /** A processed key is the order, event and time of a payload that was delivered. */
  ghost predicate KeyTold(k: EventKey, steps: seq<Step>) {
    exists p :: Deliver(p) in steps && p.orderId == k.orderId && p.event == k.event && p.timestamp == k.timestamp
  }

  ghost predicate Told(s: Store, steps: seq<Step>) {
    && (forall i :: 0 <= i < |s.orders| ==> RowTold(s.orders[i], steps))
    && (forall id :: id in s.invoices ==> InvoiceTold(id, s.invoices[id], steps))
    && (forall k :: k in s.events ==> KeyTold(k, steps))
  }

  /** An unbound row has had no payload yet, so binding it keeps its traces. */
  lemma BoundRowIsTold(row: Order, oid: string, steps: seq<Step>)
    requires RowTold(row, steps) && (row.orderId.None? || row.orderId == Some(oid))
    ensures RowTold(row.(orderId := Some(oid)), steps)
  {
    if row.orderId.Some? { assert row.(orderId := Some(oid)) == row; }
  }

  /** A row that a delivered payload moved is told by that payload and its earlier traces. */
  lemma MovedRowIsTold(a: Order, b: Order, p: Payload, steps: seq<Step>)
    requires RowTold(a, steps) && a.orderId == Some(p.orderId) && Moved(a, b, p) && Deliver(p) in steps
    requires Truthy(p.quoteId) ==> a.quoteId == p.quoteId
    ensures RowTold(b, steps)
  {
    assert DeliveredTo(b, p, steps);
    assert forall x :: DeliveredTo(a, x, steps) ==> DeliveredTo(b, x, steps);
  }

  /** The row a new delivery finds is told afterwards. */
  lemma ArrivalIsTold(s: Store, i: nat, p: Payload, steps: seq<Step>)
    requires Arrives(s, i, p) && GoodRow(s, s.orders[i]) && RowTold(s.orders[i], steps) && Deliver(p) in steps
    ensures i < |After(s, Deliver(p)).orders| && RowTold(After(s, Deliver(p)).orders[i], steps)
  {
    DeliveryWrites(s, i, p);
    LocateFinds(s.orders, p);
    var bound, t := s.orders[i].(orderId := Some(p.orderId)), After(s, Deliver(p));
    BoundRowIsTold(s.orders[i], p.orderId, steps);
    if t != s && Moves(bound.status, p.event) { MovedRowIsTold(bound, t.orders[i], p, steps); }
  }

  lemma DeliveryIsTold(s: Store, p: Payload, steps: seq<Step>)
    requires Inv(s) && Told(s, steps) && Deliver(p) in steps
    ensures Told(After(s, Deliver(p)), steps)
  {
    var i := Locate(s.orders, p);
    DeliverKeepsQuotes(s, p);
    OnlyLocatedIsBound(s, p);
    DeliveryKeys(s, p);
    if Arrives(s, i, p) {
      assert GoodRow(s, s.orders[i]);
      ArrivalIsTold(s, i, p, steps);
    } else if i < |s.orders| {
      DeliveryHandles(s, i, p);
    }
  }

  /** A delivery puts no key on record but its own. */
  lemma DeliveryKeys(s: Store, p: Payload)
    ensures forall k :: k in After(s, Deliver(p)).events ==> k in s.events || k == KeyOf(p)
  {
    DeliverCases(s, p);
  }

  lemma RequestIsTold(s: Store, q: Quote, steps: seq<Step>)
    requires Told(s, steps) && Request(q) in steps
    ensures Told(After(s, Request(q)), steps)
  {
    RequestEffect(s, q);
    if Creates(s, q) {
      assert InvoiceTold(q.invoiceId, q.amountMsat, steps);
      assert RowTold(NewOrder(q), steps);
    }
  }

  lemma StepIsTold(s: Store, step: Step, steps: seq<Step>)
    requires Inv(s) && Told(s, steps) && step in steps
    ensures Told(After(s, step), steps)
  {
    match step
    case Deliver(p) => DeliveryIsTold(s, p, steps);
    case Request(q) => RequestIsTold(s, q, steps);
    case ResolvePaid(id, _, _) => ResolveEffect(s, step);
    case ResolveAbandoned(id, _) => ResolveEffect(s, step);
  }

  /** The steps of a run bring everything it adds to the tables. */
  lemma {:induction false} RunIsTold(s: Store, steps: seq<Step>, all: seq<Step>)
    requires Inv(s) && Told(s, all) && forall step :: step in steps ==> step in all
    ensures Told(Run(s, steps), all)
    decreases |steps|
  {
    if steps != [] {
      StepIsTold(s, steps[0], all);
      StepKeepsInv(s, steps[0]);
      RunIsTold(After(s, steps[0]), steps[1..], all);
    }
  }

  /**
    In every run from empty tables each invoice, each column of each order and each dedupe key goes
    back to a quote that was asked for or a payload that was delivered to that very order.
   */
  lemma EveryColumnWasTold(steps: seq<Step>)
    ensures Told(Run(EMPTY, steps), steps)
  {
    RunIsTold(EMPTY, steps, steps);
  }
}
