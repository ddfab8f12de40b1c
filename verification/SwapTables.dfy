/**
  The tables written by src/swap/swap.service.ts and src/refund-case/refund-case.service.ts, and
  every operation on them as one all-or-nothing transaction.
 */
module SwapTables {
  import opened Common
  import opened SwapStateMachine

  /** A decimal amount field: missing (null or, for amountOut, empty), an integer, or unparsable. */
  datatype Amount = Absent | Units(n: int) | Malformed

  datatype Payload = Payload(
    orderId: string, event: Event, timestamp: int, quoteId: Option<string>,
    amountOut: Amount, feeAmount: Amount, feeAsset: Option<string>,
    errorCode: Option<string>, errorMessage: Option<string>)

  datatype Order = Order(
    invoiceId: string, quoteId: Option<string>, orderId: Option<string>,
    receiveRequestId: Option<string>, status: Status, actualOut: Option<int>,
    feeAmount: int, feeAsset: Option<string>,
    errorCode: Option<string>, errorMessage: Option<string>)

  datatype EventKey = EventKey(orderId: string, event: Event, timestamp: int)

  datatype RefundStatus = Open | Paid | Abandoned

  datatype Refund = Refund(
    amountSats: int, reason: string, status: RefundStatus,
    externalRef: Option<string>, payeeLnAddress: Option<string>)

  /**
    invoices maps an invoice id to its amount in millisatoshi; events maps a dedupe key to whether
    it was processed; refunds is keyed by invoice id, the unique column of that table.
   */
  datatype Store = Store(
    invoices: map<string, int>, orders: seq<Order>, events: map<EventKey, bool>,
    refunds: map<string, Refund>)

  const EMPTY := Store(map[], [], map[], map[])

  /** A transaction commits a new store, or throws and leaves the old one. */
  datatype Outcome = Committed(store: Store) | RolledBack

  // ----- webhook events

  function KeyOf(p: Payload): EventKey {
    EventKey(p.orderId, p.event, p.timestamp)
  }

  /** findFirst on orderId: the first matching row, or |orders|. */
  function IndexByOrderId(orders: seq<Order>, oid: string): (i: nat)
    ensures i <= |orders|
    ensures i < |orders| ==> orders[i].orderId == Some(oid)
    ensures forall j :: 0 <= j < i ==> orders[j].orderId != Some(oid)
  {
    if orders == [] || orders[0].orderId == Some(oid) then 0
    else 1 + IndexByOrderId(orders[1..], oid)
  }

  /** findFirst on quoteId among the rows with no orderId yet: the first matching row, or |orders|. */
  function IndexUnbound(orders: seq<Order>, quote: string): (i: nat)
    ensures i <= |orders|
    ensures i < |orders| ==> orders[i].orderId.None? && orders[i].quoteId == Some(quote)
    ensures forall j :: 0 <= j < i ==> !(orders[j].orderId.None? && orders[j].quoteId == Some(quote))
  {
    if orders == [] || (orders[0].orderId.None? && orders[0].quoteId == Some(quote)) then 0
    else 1 + IndexUnbound(orders[1..], quote)
  }

  /** The row a payload concerns: by orderId, else an unbound row with the payload's quote. */
  function Locate(orders: seq<Order>, p: Payload): (i: nat)
    ensures i <= |orders|
  {
    var i := IndexByOrderId(orders, p.orderId);
    if i < |orders| || !Truthy(p.quoteId) then i else IndexUnbound(orders, p.quoteId.value)
  }

  predicate QuoteMismatch(row: Order, p: Payload) {
    Truthy(p.quoteId) && row.quoteId != p.quoteId
  }

  /** The columns an applied event writes; None when an amount cannot be parsed. */
  function UpdateRow(row: Order, next: Status, p: Payload): Option<Order> {
    var setsOut := p.event == OrderCompleted && !p.amountOut.Absent?;
    var setsFee := (p.event == OrderSwapping || p.event == OrderCompleted) && !p.feeAmount.Absent?
                   && (!Truthy(p.feeAsset) || p.feeAsset == row.feeAsset);
    var setsError := p.event == OrderFailed || p.event == OrderRefunding || p.event == OrderRefunded;
    if (setsOut && p.amountOut.Malformed?) || (setsFee && p.feeAmount.Malformed?) then None
    else Some(row.(
              status := next,
              actualOut := if setsOut then Some(p.amountOut.n) else row.actualOut,
              feeAmount := if setsFee then p.feeAmount.n else row.feeAmount,
              errorCode := if setsError && Truthy(p.errorCode) then p.errorCode else row.errorCode,
              errorMessage := if setsError && Truthy(p.errorMessage) then p.errorMessage else row.errorMessage))
  }

  function AmountSats(invoices: map<string, int>, invoiceId: string): int {
    if invoiceId in invoices then invoices[invoiceId] / 1000 else 0
  }

  function OrElse(o: Option<string>, fallback: string): string {
    if o.Some? then o.value else fallback
  }

  function FailureReason(p: Payload): string {
    "PAYMENT_FAILED: " + OrElse(p.errorCode, "no_code") + " | " + OrElse(p.errorMessage, "no_message")
  }

  /** createRefundCase: a second case for an invoice meets the unique index and returns the first. */
  function OpenRefund(refunds: map<string, Refund>, invoiceId: string, sats: int, reason: string): map<string, Refund> {
    if invoiceId in refunds then refunds
    else refunds[invoiceId := Refund(sats, reason, Open, None, None)]
  }

  /** Everything after the order was found and its quote checked. */
  function Handle(s: Store, i: nat, p: Payload): Outcome
    requires i < |s.orders|
  {
    var row := s.orders[i];
    var done := s.(events := s.events[KeyOf(p) := true]);
    if p.event.RecoveryRequired? then
      if Terminal(row.status) then Committed(done)
      else Committed(done.(refunds := OpenRefund(done.refunds, row.invoiceId,
                                                 AmountSats(s.invoices, row.invoiceId),
                                                 "PAYMENT_RECOVERY_REQUIRED")))
    else
      match Decide(row.status, p.event)
      case Throws => RolledBack
      case NoOp => Committed(done)
      case Skip => Committed(done)
      case Apply(next) =>
        match UpdateRow(row, next, p)
        case None => RolledBack
        case Some(updated) =>
          Committed(done.(orders := done.orders[i := updated],
                          refunds := if p.event == OrderFailed
                                     then OpenRefund(done.refunds, row.invoiceId,
                                                     AmountSats(s.invoices, row.invoiceId), FailureReason(p))
                                     else done.refunds))
  }

  /** The dedupe row is created unprocessed when it is new. */
  function WithEvent(s: Store, key: EventKey): (r: Store)
    ensures key in r.events
  {
    if key in s.events then s else s.(events := s.events[key := false])
  }

  function BindOrder(s: Store, i: nat, oid: string): (r: Store)
    requires i < |s.orders|
    ensures |r.orders| == |s.orders|
  {
    s.(orders := s.orders[i := s.orders[i].(orderId := Some(oid))])
  }

  /** applyWebhookEvent. */
  function ApplyEvent(s: Store, p: Payload): Outcome {
    var s1 := WithEvent(s, KeyOf(p));
    if s1.events[KeyOf(p)] then Committed(s1)
    else
      var i := Locate(s1.orders, p);
      if i == |s1.orders| then Committed(s1)
      else if QuoteMismatch(s1.orders[i], p) then RolledBack
      else Handle(BindOrder(s1, i, p.orderId), i, p)
  }

  // ----- quote creation

  datatype Quote = Quote(
    invoiceId: string, amountMsat: int, quoteId: string, receiveRequestId: string,
    feeAmount: int, feeAsset: string, replayed: bool)

  const MIN_SENDABLE_MSAT := 1_000
  const MAX_SENDABLE_MSAT := 10_000_000_000

  /** The controller admits whole-satoshi amounts inside the advertised range only. */
  predicate SendableAmount(msat: int) {
    msat % 1000 == 0 && MIN_SENDABLE_MSAT <= msat <= MAX_SENDABLE_MSAT
  }

  /** One of the unique indexes of flashnet_orders refuses the new row. */
  predicate Collides(orders: seq<Order>, q: Quote) {
    exists j :: 0 <= j < |orders| &&
      (orders[j].invoiceId == q.invoiceId || orders[j].quoteId == Some(q.quoteId)
       || orders[j].receiveRequestId == Some(q.receiveRequestId))
  }

  predicate HasOrder(orders: seq<Order>, invoiceId: string) {
    exists j :: 0 <= j < |orders| && orders[j].invoiceId == invoiceId
  }

  function NewOrder(q: Quote): Order {
    Order(q.invoiceId, Some(q.quoteId), None, Some(q.receiveRequestId), PendingPayment, None,
          q.feeAmount, Some(q.feeAsset), None, None)
  }

  /** The amount check of the LNURL callback followed by initiateLightningQuote. */
  function CreateQuote(s: Store, q: Quote): Outcome {
    if !SendableAmount(q.amountMsat) then RolledBack
    else if q.replayed && HasOrder(s.orders, q.invoiceId) then Committed(s)
    else if q.invoiceId in s.invoices || Collides(s.orders, q) then RolledBack
    else Committed(s.(invoices := s.invoices[q.invoiceId := q.amountMsat],
                      orders := s.orders + [NewOrder(q)]))
  }

  // ----- refund resolution

  function MarkPaid(s: Store, invoiceId: string, externalRef: Option<string>, payee: Option<string>): Outcome {
    if invoiceId !in s.refunds || s.refunds[invoiceId].status != Open then RolledBack
    else
      var r := s.refunds[invoiceId];
      Committed(s.(refunds := s.refunds[invoiceId := r.(
                     status := Paid,
                     externalRef := if externalRef.Some? then externalRef else r.externalRef,
                     payeeLnAddress := if payee.Some? then payee else r.payeeLnAddress)]))
  }

  function MarkAbandoned(s: Store, invoiceId: string, reason: Option<string>): Outcome {
    if invoiceId !in s.refunds || s.refunds[invoiceId].status != Open then RolledBack
    else
      var r := s.refunds[invoiceId];
      Committed(s.(refunds := s.refunds[invoiceId := r.(
                     status := Abandoned,
                     reason := if reason.Some? then reason.value else r.reason)]))
  }

  // ----- runs

  datatype Step =
    | Deliver(payload: Payload)
    | Request(quote: Quote)
    | ResolvePaid(invoiceId: string, externalRef: Option<string>, payee: Option<string>)
    | ResolveAbandoned(invoiceId: string, reason: Option<string>)

  function Execute(s: Store, step: Step): Outcome {
    match step
    case Deliver(p) => ApplyEvent(s, p)
    case Request(q) => CreateQuote(s, q)
    case ResolvePaid(id, ref, payee) => MarkPaid(s, id, ref, payee)
    case ResolveAbandoned(id, reason) => MarkAbandoned(s, id, reason)
  }

  function Result(s: Store, o: Outcome): Store {
    match o
    case Committed(t) => t
    case RolledBack => s
  }

  function After(s: Store, step: Step): Store {
    Result(s, Execute(s, step))
  }

  function Run(s: Store, steps: seq<Step>): Store
    decreases |steps|
  {
    if steps == [] then s else Run(After(s, steps[0]), steps[1..])
  }
}
