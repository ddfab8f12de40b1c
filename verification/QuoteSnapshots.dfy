/**
  The other half of src/swap/quote-reconciler.service.ts: the provider's snapshot of a fetched order
  is applied through the webhook handler. Exactly when that concludes the order, and what a batch of
  such applications keeps.
 */
module QuoteSnapshots {
  import opened Common
  import opened SwapStateMachine
  import opened SwapTables
  import opened SwapInvariant
  import opened SwapDelivery
  import opened SwapService
  import opened SwapTexts
  import opened SwapMeaning

  // ----- one row

  /** event is the status of the snapshot read as an event; updatedAt is None when it is not a date. */
  datatype Snapshot = Snapshot(
    orderId: string, quoteId: Option<string>, event: Event, updatedAt: Option<int>, underReview: bool,
    amountOut: Amount, feeAmount: Amount, feeAsset: Option<string>,
    errorCode: Option<string>, errorMessage: Option<string>)

  /** The checks made against the row as it was fetched. */
  predicate Correlates(fetched: Order, sn: Snapshot) {
    && (Truthy(fetched.orderId) ==> fetched.orderId == Some(sn.orderId))
    && sn.quoteId == fetched.quoteId
    && sn.updatedAt.Some?
  }

  function PayloadOf(sn: Snapshot, event: Event): Payload
    requires sn.updatedAt.Some?
  {
    Payload(sn.orderId, event, sn.updatedAt.value, sn.quoteId, sn.amountOut, sn.feeAmount, sn.feeAsset,
            sn.errorCode, sn.errorMessage)
  }

  /** The deliveries a snapshot turns into; a throw of the first one keeps back the second. */
  function Deliveries(s: Store, fetched: Order, snapshot: Option<Snapshot>): seq<Step> {
    if snapshot.None? || !Correlates(fetched, snapshot.value) then []
    else
      var p := PayloadOf(snapshot.value, snapshot.value.event);
      if snapshot.value.underReview && ApplyEvent(s, p).Committed?
      then [Deliver(p), Deliver(PayloadOf(snapshot.value, RecoveryRequired))]
      else [Deliver(p)]
  }

  function Reconcile(s: Store, fetched: Order, snapshot: Option<Snapshot>): Store {
    Run(s, Deliveries(s, fetched, snapshot))
  }

  /** One iteration of the inner loop, against the running service. */
  method ReconcileRow(db: Database, fetched: Order, snapshot: Option<Snapshot>)
    modifies db
    ensures db.View() == Reconcile(old(db.View()), fetched, snapshot)
  {
    if snapshot.None? {
      return;
    }
    var sn := snapshot.value;
    if Truthy(fetched.orderId) && fetched.orderId != Some(sn.orderId) {
      return;
    }
    if sn.quoteId != fetched.quoteId {
      return;
    }
    if sn.updatedAt.None? {
      return;
    }
    ghost var s := db.View();
    var p, review := PayloadOf(sn, sn.event), PayloadOf(sn, RecoveryRequired);
    Unfold2(s, Deliver(p), Deliver(review));
    assert Run(s, [Deliver(p)]) == Run(After(s, Deliver(p)), []);
    var committed := db.ApplyWebhookEvent(p);
    if committed && sn.underReview {
      var _ := db.ApplyWebhookEvent(review);
    }
  }

  // ----- what time leaves alone

  /** b is the same row as a, some steps later. */
  ghost predicate Later(a: Order, b: Order) {
    && b.quoteId == a.quoteId && b.feeAsset == a.feeAsset
    && (a.orderId.Some? ==> b.orderId == a.orderId)
    && (Terminal(a.status) ==> b == a)
  }

  lemma {:induction false} RunKeepsRow(s: Store, steps: seq<Step>, i: nat)
    requires Inv(s) && i < |s.orders|
    ensures Inv(Run(s, steps)) && i < |Run(s, steps).orders| && Later(s.orders[i], Run(s, steps).orders[i])
    decreases |steps|
  {
    if steps != [] {
      StepKeepsInv(s, steps[0]);
      assert RowStep(s.orders[i], After(s, steps[0]).orders[i]);
      RunKeepsRow(After(s, steps[0]), steps[1..], i);
    }
  }

  // ----- exactly when a snapshot concludes its order

  /** Row i is the order oid, or is free to become it. */
  ghost predicate Attached(s: Store, i: nat, oid: string) {
    Linked(s, i, oid, [])
  }

  lemma AttachedIsLocated(s: Store, i: nat, p: Payload)
    requires Inv(s) && i < |s.orders| && p.quoteId == s.orders[i].quoteId
    ensures Locate(s.orders, p) == i <==> Attached(s, i, p.orderId)
  {
  }

  /** Only a terminal event ends a live order. */
  lemma LiveStaysLive(s: Store, i: nat, p: Payload)
    requires Inv(s) && i < |s.orders| && !Terminal(s.orders[i].status)
    requires !TerminalEvent(p.event) || Locate(s.orders, p) != i
    ensures var t := After(s, Deliver(p)); i < |t.orders| && !Terminal(t.orders[i].status)
  {
    OnlyLocatedIsBound(s, p);
    if Locate(s.orders, p) == i {
      assert GoodRow(s, s.orders[i]);
      OneDelivery(s, i, p);
    }
  }

  lemma FirstDelivery(s: Store, i: nat, p: Payload)
    requires Inv(s) && i < |s.orders| && !Terminal(s.orders[i].status)
    requires TerminalEvent(p.event) && p.quoteId == s.orders[i].quoteId
    ensures var t := After(s, Deliver(p));
            && i < |t.orders|
            && (Terminal(t.orders[i].status) <==> Attached(s, i, p.orderId) && Readable(s.orders[i], p))
            && (Terminal(t.orders[i].status) ==> Moved(s.orders[i], t.orders[i], p))
  {
    AttachedIsLocated(s, i, p);
    OnlyLocatedIsBound(s, p);
    if Attached(s, i, p.orderId) {
      assert GoodRow(s, s.orders[i]);
      TerminalKeyIsFresh(s, i, p.orderId, [], p);
      OneDelivery(s, i, p);
      DeliveryWrites(s, i, p);
    } else {
      LiveStaysLive(s, i, p);
    }
  }

  /** A review delivery after the first leaves the row's conclusion as it is. */
  lemma ReviewChangesNoConclusion(s: Store, i: nat, p: Payload)
    requires Inv(s) && i < |s.orders| && p.event == RecoveryRequired
    ensures var t := After(s, Deliver(p));
            && i < |t.orders|
            && (Terminal(s.orders[i].status) ==> t.orders[i] == s.orders[i])
            && (!Terminal(s.orders[i].status) ==> !Terminal(t.orders[i].status))
  {
    StepKeepsInv(s, Deliver(p));
    assert RowStep(s.orders[i], After(s, Deliver(p)).orders[i]);
    if !Terminal(s.orders[i].status) { LiveStaysLive(s, i, p); }
  }

  /** The snapshot reports a fee, readable or not, that a completion of this row writes. */
  predicate CarriesFee(row: Order, sn: Snapshot) {
    sn.event == OrderCompleted && !sn.feeAmount.Absent? && (!Truthy(sn.feeAsset) || sn.feeAsset == row.feeAsset)
  }

  /** The snapshot settles a row: terminal, correlated with the row as fetched, and readable in what it writes. */
  predicate Settles(fetched: Order, snapshot: Option<Snapshot>) {
    && snapshot.Some? && TerminalEvent(snapshot.value.event)
    && Correlates(fetched, snapshot.value)
    && !(snapshot.value.event == OrderCompleted && snapshot.value.amountOut.Malformed?)
    && !(CarriesFee(fetched, snapshot.value) && snapshot.value.feeAmount.Malformed?)
  }

  /** b is the live row a as the terminal snapshot concludes it, column by column. */
  predicate ConcludedBy(a: Order, b: Order, sn: Snapshot) {
    && EventName(sn.event) == NameFor(StatusText(b.status))
    && b.actualOut == (if sn.event == OrderCompleted && sn.amountOut.Units? then Some(sn.amountOut.n) else None)
    && b.feeAmount == (if CarriesFee(a, sn) && sn.feeAmount.Units? then sn.feeAmount.n else a.feeAmount)
    && b.errorCode == (if sn.event in {OrderFailed, OrderRefunded} && Truthy(sn.errorCode) then sn.errorCode
                       else a.errorCode)
    && b.errorMessage == (if sn.event in {OrderFailed, OrderRefunded} && Truthy(sn.errorMessage) then sn.errorMessage
                          else a.errorMessage)
    && b.orderId == Some(sn.orderId) && b.invoiceId == a.invoiceId && b.quoteId == a.quoteId
    && b.receiveRequestId == a.receiveRequestId && b.feeAsset == a.feeAsset
  }

  /**
    A terminal snapshot concludes a live order exactly when it passes the checks on the row as it was
    fetched, can be read, and the row is, or is free to become, the order it names; the order then has
    the snapshot's status, amount, fee and error. The row may have moved on since it was fetched.
   */
  lemma SnapshotConcludesIff(s: Store, i: nat, fetched: Order, sn: Snapshot)
    requires Inv(s) && i < |s.orders| && !Terminal(s.orders[i].status)
    requires Later(fetched, s.orders[i]) && TerminalEvent(sn.event)
    ensures var t := Reconcile(s, fetched, Some(sn));
            && i < |t.orders|
            && (Terminal(t.orders[i].status) <==> Settles(fetched, Some(sn)) && Attached(s, i, sn.orderId))
            && (Terminal(t.orders[i].status) ==> ConcludedBy(s.orders[i], t.orders[i], sn))
  {
    if Correlates(fetched, sn) {
      var p := PayloadOf(sn, sn.event);
      CorrelatedConcludes(s, i, fetched, sn);
      assert Readable(s.orders[i], p) <==> Settles(fetched, Some(sn));
      assert GoodRow(s, s.orders[i]);
      LiveEvents(sn.event);
    }
  }

  /** The terminal events that carry errors. */
  lemma LiveEvents(e: Event)
    requires TerminalEvent(e)
    ensures e in {OrderCompleted, OrderFailed, OrderRefunded, OrderExpired}
  {
  }

  lemma CorrelatedConcludes(s: Store, i: nat, fetched: Order, sn: Snapshot)
    requires Inv(s) && i < |s.orders| && !Terminal(s.orders[i].status) && Later(fetched, s.orders[i])
    requires TerminalEvent(sn.event) && Correlates(fetched, sn)
    ensures var p := PayloadOf(sn, sn.event);
            var t := Reconcile(s, fetched, Some(sn));
            && i < |t.orders|
            && (Terminal(t.orders[i].status) <==> Attached(s, i, p.orderId) && Readable(s.orders[i], p))
            && (Terminal(t.orders[i].status) ==> Moved(s.orders[i], t.orders[i], p))
  {
    var p, review := PayloadOf(sn, sn.event), PayloadOf(sn, RecoveryRequired);
    FirstDelivery(s, i, p);
    StepKeepsInv(s, Deliver(p));
    ReviewChangesNoConclusion(After(s, Deliver(p)), i, review);
    ReconcileIs(s, fetched, sn, p, review);
  }

  /** The webhook of this event with the columns of the snapshot. */
  predicate Tells(p: Payload, event: Event, sn: Snapshot) {
    && p.event == event && Some(p.timestamp) == sn.updatedAt
    && p.orderId == sn.orderId && p.quoteId == sn.quoteId
    && p.amountOut == sn.amountOut && p.feeAmount == sn.feeAmount && p.feeAsset == sn.feeAsset
    && p.errorCode == sn.errorCode && p.errorMessage == sn.errorMessage
  }

  /**
    Reconciling with a snapshot that names another order or quote than the fetched row, or no time,
    changes nothing; otherwise it is receiving the webhook with the columns of the snapshot, followed,
    once that is committed, by the recovery hold if the order is under review.
   */
  lemma ReconcileIs(s: Store, fetched: Order, sn: Snapshot, p: Payload, review: Payload)
    requires sn.updatedAt.Some? ==> Tells(p, sn.event, sn) && Tells(review, RecoveryRequired, sn)
    ensures Reconcile(s, fetched, Some(sn)) ==
            if (Truthy(fetched.orderId) && fetched.orderId.value != sn.orderId) || sn.quoteId != fetched.quoteId
               || sn.updatedAt.None? then s
            else if sn.underReview && ApplyEvent(s, p).Committed? then After(After(s, Deliver(p)), Deliver(review))
            else After(s, Deliver(p))
  {
    if sn.updatedAt.Some? {
      assert p == PayloadOf(sn, sn.event) && review == PayloadOf(sn, RecoveryRequired);
      Unfold2(s, Deliver(p), Deliver(review));
      assert Run(s, [Deliver(p)]) == Run(After(s, Deliver(p)), []);
    }
  }

  // ----- one query after the other

  /** One query of one queue, as order i sees it: what else happens before and after its own snapshot is applied. */
  datatype Batch = Batch(before: seq<Step>, snapshot: Option<Snapshot>, after: seq<Step>)

  /** s is the store when the order's queue is read. */
  function AfterBatch(s: Store, i: nat, b: Batch, fetched: bool): Store {
    var m := Run(s, b.before);
    Run(if fetched && i < |s.orders| then Reconcile(m, s.orders[i], b.snapshot) else m, b.after)
  }

  function StoreAt(s: Store, i: nat, batches: seq<Batch>, fetched: seq<bool>, t: nat): Store
    requires t <= |batches| == |fetched|
  {
    if t == 0 then s else AfterBatch(StoreAt(s, i, batches, fetched, t - 1), i, batches[t - 1], fetched[t - 1])
  }

  lemma BatchKeepsRow(s: Store, i: nat, b: Batch, fetched: bool)
    requires Inv(s) && i < |s.orders|
    ensures var t := AfterBatch(s, i, b, fetched); Inv(t) && i < |t.orders| && Later(s.orders[i], t.orders[i])
  {
    RunKeepsRow(s, b.before, i);
    var m := Run(s, b.before);
    RunKeepsRow(m, Deliveries(m, s.orders[i], b.snapshot), i);
    RunKeepsRow(if fetched then Reconcile(m, s.orders[i], b.snapshot) else m, b.after, i);
  }

  /** Row i of a is the same order in b, both sound. */
  ghost predicate Continues(a: Store, b: Store, i: nat) {
    Inv(a) && Inv(b) && i < |a.orders| && i < |b.orders| && Later(a.orders[i], b.orders[i])
  }

  lemma OneMoreBatch(a: Store, b: Store, i: nat, batch: Batch, fetched: bool)
    requires Continues(a, b, i)
    ensures Continues(a, AfterBatch(b, i, batch, fetched), i)
  {
    BatchKeepsRow(b, i, batch, fetched);
  }

  lemma {:induction false} BatchesKeepInv(s: Store, i: nat, batches: seq<Batch>, fetched: seq<bool>, t: nat)
    requires Inv(s) && i < |s.orders| && t <= |batches| == |fetched|
    ensures Continues(s, StoreAt(s, i, batches, fetched, t), i)
  {
    if t > 0 {
      BatchesKeepInv(s, i, batches, fetched, t - 1);
      OneMoreBatch(s, StoreAt(s, i, batches, fetched, t - 1), i, batches[t - 1], fetched[t - 1]);
    }
  }

  lemma {:induction false} BatchesKeepRow(s: Store, i: nat, batches: seq<Batch>, fetched: seq<bool>, t: nat, u: nat)
    requires Inv(s) && i < |s.orders| && t <= u <= |batches| == |fetched|
    ensures Continues(StoreAt(s, i, batches, fetched, t), StoreAt(s, i, batches, fetched, u), i)
    decreases u
  {
    if t == u {
      BatchesKeepInv(s, i, batches, fetched, t);
    } else {
      BatchesKeepRow(s, i, batches, fetched, t, u - 1);
      OneMoreBatch(StoreAt(s, i, batches, fetched, t), StoreAt(s, i, batches, fetched, u - 1), i, batches[u - 1],
                   fetched[u - 1]);
    }
  }

  /** A batch that fetches a settled order leaves it concluded. */
  lemma FetchedBatchConcludes(s: Store, i: nat, b: Batch)
    requires Inv(s) && i < |s.orders| && Settles(s.orders[i], b.snapshot)
    requires Attached(Run(s, b.before), i, b.snapshot.value.orderId)
    ensures var t := AfterBatch(s, i, b, true); i < |t.orders| && Terminal(t.orders[i].status)
  {
    var m := Run(s, b.before);
    RunKeepsRow(s, b.before, i);
    var r := Reconcile(m, s.orders[i], b.snapshot);
    RunKeepsRow(m, Deliveries(m, s.orders[i], b.snapshot), i);
    if !Terminal(m.orders[i].status) {
      SnapshotConcludesIff(m, i, s.orders[i], b.snapshot.value);
    }
    RunKeepsRow(r, b.after, i);
  }

  predicate RowConcluded(s: Store, i: nat) {
    i < |s.orders| && Terminal(s.orders[i].status)
  }

  lemma ConcludedStays(s: Store, i: nat, batches: seq<Batch>, fetched: seq<bool>, t: nat)
    requires Inv(s) && i < |s.orders| && t <= |batches| == |fetched|
    requires RowConcluded(StoreAt(s, i, batches, fetched, t), i)
    ensures RowConcluded(StoreAt(s, i, batches, fetched, |batches|), i)
  {
    BatchesKeepRow(s, i, batches, fetched, t, |batches|);
  }
}
