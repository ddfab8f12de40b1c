/**
  The swap and refund-case services as they run: the tables are fields updated statement by
  statement, and a throw inside a transaction puts the snapshot back. Each method is proved against
  the transaction of module SwapTables that it implements.
 */
module SwapService {
  import opened Common
  import opened SwapStateMachine
  import opened SwapTables

  class Database {
    var invoices: map<string, int>
    var orders: seq<Order>
    var events: map<EventKey, bool>
    var refunds: map<string, Refund>

    ghost function View(): Store
      reads this
    {
      Store(invoices, orders, events, refunds)
    }

    constructor ()
      ensures View() == EMPTY
    {
      invoices, orders, events, refunds := map[], [], map[], map[];
    }

    method FindByOrderId(oid: string) returns (i: nat)
      ensures i == IndexByOrderId(orders, oid)
    {
      i := 0;
      while i < |orders| && orders[i].orderId != Some(oid)
        invariant i <= |orders|
        invariant forall j :: 0 <= j < i ==> orders[j].orderId != Some(oid)
      {
        i := i + 1;
      }
    }

    method FindUnbound(quote: string) returns (i: nat)
      ensures i == IndexUnbound(orders, quote)
    {
      i := 0;
      while i < |orders| && !(orders[i].orderId.None? && orders[i].quoteId == Some(quote))
        invariant i <= |orders|
        invariant forall j :: 0 <= j < i ==> !(orders[j].orderId.None? && orders[j].quoteId == Some(quote))
      {
        i := i + 1;
      }
    }

    method CreateRefundCase(invoiceId: string, sats: int, reason: string)
      modifies this`refunds
      ensures refunds == OpenRefund(old(refunds), invoiceId, sats, reason)
    {
      if invoiceId in refunds {
        return;
      }
      refunds := refunds[invoiceId := Refund(sats, reason, Open, None, None)];
    }

    method Restore(snapshot: Store)
      modifies this
      ensures View() == snapshot
    {
      invoices, orders, events, refunds := snapshot.invoices, snapshot.orders, snapshot.events, snapshot.refunds;
    }

    method ApplyWebhookEvent(p: Payload) returns (committed: bool)
      modifies this
      ensures View() == After(old(View()), Deliver(p))
      ensures committed == ApplyEvent(old(View()), p).Committed?
    {
      var snapshot := Store(invoices, orders, events, refunds);
      var key := KeyOf(p);
      if key !in events {
        events := events[key := false];
      }
      if events[key] {
        return true;
      }
      var i := FindByOrderId(p.orderId);
      if i == |orders| && Truthy(p.quoteId) {
        i := FindUnbound(p.quoteId.value);
      }
      if i < |orders| && Truthy(p.quoteId) && orders[i].quoteId != p.quoteId {
        Restore(snapshot);
        return false;
      }
      if i == |orders| {
        return true;
      }
      orders := orders[i := orders[i].(orderId := Some(p.orderId))];
      committed := Process(i, p);
      if !committed {
        Restore(snapshot);
      }
    }

    /** The part of the transaction that starts once the order is known. */
    method Process(i: nat, p: Payload) returns (committed: bool)
      requires i < |orders|
      modifies this
      ensures committed == Handle(old(View()), i, p).Committed?
      ensures committed ==> View() == Handle(old(View()), i, p).store
    {
      var row := orders[i];
      if p.event == RecoveryRequired {
        if !Terminal(row.status) {
          CreateRefundCase(row.invoiceId, AmountSats(invoices, row.invoiceId), "PAYMENT_RECOVERY_REQUIRED");
        }
        events := events[KeyOf(p) := true];
        return true;
      }
      var decision := Decide(row.status, p.event);
      if decision == Throws {
        return false;
      }
      if decision == NoOp || decision == Skip {
        events := events[KeyOf(p) := true];
        return true;
      }
      var updated := row.(status := decision.next);
      if p.event == OrderCompleted && p.amountOut != Absent {
        if p.amountOut == Malformed {
          return false;
        }
        updated := updated.(actualOut := Some(p.amountOut.n));
      }
      if p.event == OrderFailed || p.event == OrderRefunding || p.event == OrderRefunded {
        if Truthy(p.errorCode) {
          updated := updated.(errorCode := p.errorCode);
        }
        if Truthy(p.errorMessage) {
          updated := updated.(errorMessage := p.errorMessage);
        }
      }
      if (p.event == OrderSwapping || p.event == OrderCompleted) && p.feeAmount != Absent
         && (!Truthy(p.feeAsset) || p.feeAsset == row.feeAsset) {
        if p.feeAmount == Malformed {
          return false;
        }
        updated := updated.(feeAmount := p.feeAmount.n);
      }
      orders := orders[i := updated];
      events := events[KeyOf(p) := true];
      if p.event == OrderFailed {
        CreateRefundCase(row.invoiceId, AmountSats(invoices, row.invoiceId), FailureReason(p));
      }
      return true;
    }

    method InitiateLightningQuote(q: Quote) returns (committed: bool)
      modifies this
      ensures View() == After(old(View()), Request(q))
      ensures committed == CreateQuote(old(View()), q).Committed?
    {
      if !SendableAmount(q.amountMsat) {
        return false;
      }
      if q.replayed && HasOrder(orders, q.invoiceId) {
        return true;
      }
      if q.invoiceId in invoices {
        return false;
      }
      invoices := invoices[q.invoiceId := q.amountMsat];
      if Collides(orders, q) {
        invoices := invoices - {q.invoiceId};
        assert invoices == old(invoices);
        return false;
      }
      orders := orders + [NewOrder(q)];
      return true;
    }

    method MarkRefundPaid(id: string, externalRef: Option<string>, payee: Option<string>) returns (committed: bool)
      modifies this`refunds
      ensures View() == After(old(View()), ResolvePaid(id, externalRef, payee))
      ensures committed == (id in old(refunds) && old(refunds)[id].status == Open)
    {
      if id !in refunds || refunds[id].status != Open {
        return false;
      }
      var r := refunds[id].(status := Paid);
      if externalRef.Some? {
        r := r.(externalRef := externalRef);
      }
      if payee.Some? {
        r := r.(payeeLnAddress := payee);
      }
      refunds := refunds[id := r];
      return true;
    }

    method MarkRefundAbandoned(id: string, reason: Option<string>) returns (committed: bool)
      modifies this`refunds
      ensures View() == After(old(View()), ResolveAbandoned(id, reason))
      ensures committed == (id in old(refunds) && old(refunds)[id].status == Open)
    {
      if id !in refunds || refunds[id].status != Open {
        return false;
      }
      var r := refunds[id].(status := Abandoned);
      if reason.Some? {
        r := r.(reason := reason.value);
      }
      refunds := refunds[id := r];
      return true;
    }
  }
}
