/**
  The texts of statuses and events, as the database and the wire spell them, and what an event means
  by its text: `completed` stands for DELIVERED, every other event name mirrors its status.
 */
module SwapTexts {
  import opened Common
  import opened SwapStateMachine

  function StatusText(s: Status): string {
    match s
    case PendingPayment => "PENDING_PAYMENT"
    case Processing => "PROCESSING"
    case Confirming => "CONFIRMING"
    case Bridging => "BRIDGING"
    case Swapping => "SWAPPING"
    case AwaitingApproval => "AWAITING_APPROVAL"
    case Paused => "PAUSED"
    case Delivering => "DELIVERING"
    case Delivered => "DELIVERED"
    case Refunding => "REFUNDING"
    case Refunded => "REFUNDED"
    case Failed => "FAILED"
    case Expired => "EXPIRED"
    case Unfulfilled => "UNFULFILLED"
    case UnknownStatus(text) => text
  }

  function EventName(e: Event): string {
    match e
    case OrderPaused => "order.paused"
    case OrderExpired => "order.expired"
    case OrderProcessing => "order.processing"
    case OrderConfirming => "order.confirming"
    case OrderBridging => "order.bridging"
    case OrderSwapping => "order.swapping"
    case OrderAwaitingApproval => "order.awaiting_approval"
    case OrderRefunding => "order.refunding"
    case OrderDelivering => "order.delivering"
    case OrderCompleted => "order.completed"
    case OrderFailed => "order.failed"
    case OrderUnfulfilled => "order.unfulfilled"
    case OrderRefunded => "order.refunded"
    case RecoveryRequired => "order.recovery_required"
    case UnknownEvent(name) => name
  }

  const PREFIX := "order."

  function LowerCase(s: string): string {
    seq(|s|, i requires 0 <= i < |s| => LowerChar(s[i]))
  }

  /** The source's law of names: the event name of a status. */
  function NameFor(status: string): string {
    PREFIX + if status == "DELIVERED" then "completed" else LowerCase(status)
  }

  /** The event leads to the status its name stands for. */
  predicate Named(e: Event)
    requires Mapped(e)
  {
    EventName(e) == NameFor(StatusText(StatusOf(e)))
  }

  /** Every mapped event leads to the status its name stands for. */
  lemma EventNamesItsStatus(e: Event)
    requires Mapped(e)
    ensures Named(e)
  {
    match e
    case OrderPaused => PausedIsNamed(e);
    case OrderExpired => ExpiredIsNamed(e);
    case OrderProcessing => ProcessingIsNamed(e);
    case OrderConfirming => ConfirmingIsNamed(e);
    case OrderBridging => BridgingIsNamed(e);
    case OrderSwapping => SwappingIsNamed(e);
    case OrderAwaitingApproval => AwaitingApprovalIsNamed(e);
    case OrderRefunding => RefundingIsNamed(e);
    case OrderDelivering => DeliveringIsNamed(e);
    case OrderCompleted => CompletedIsNamed(e);
    case OrderFailed => FailedIsNamed(e);
    case OrderUnfulfilled => UnfulfilledIsNamed(e);
    case OrderRefunded => RefundedIsNamed(e);
  }

  lemma PausedIsNamed(e: Event)
    requires e == OrderPaused
    ensures Named(e)
  {
  }

  lemma ExpiredIsNamed(e: Event)
    requires e == OrderExpired
    ensures Named(e)
  {
  }

  lemma ProcessingIsNamed(e: Event)
    requires e == OrderProcessing
    ensures Named(e)
  {
  }

  lemma ConfirmingIsNamed(e: Event)
    requires e == OrderConfirming
    ensures Named(e)
  {
  }

  lemma BridgingIsNamed(e: Event)
    requires e == OrderBridging
    ensures Named(e)
  {
  }

  lemma SwappingIsNamed(e: Event)
    requires e == OrderSwapping
    ensures Named(e)
  {
  }

  lemma AwaitingApprovalIsNamed(e: Event)
    requires e == OrderAwaitingApproval
    ensures Named(e)
  {
  }

  lemma RefundingIsNamed(e: Event)
    requires e == OrderRefunding
    ensures Named(e)
  {
  }

  lemma DeliveringIsNamed(e: Event)
    requires e == OrderDelivering
    ensures Named(e)
  {
  }

  lemma CompletedIsNamed(e: Event)
    requires e == OrderCompleted
    ensures Named(e)
  {
  }

  lemma FailedIsNamed(e: Event)
    requires e == OrderFailed
    ensures Named(e)
  {
  }

  lemma UnfulfilledIsNamed(e: Event)
    requires e == OrderUnfulfilled
    ensures Named(e)
  {
  }

  lemma RefundedIsNamed(e: Event)
    requires e == OrderRefunded
    ensures Named(e)
  {
  }

  // ----- the table, read by its columns

  /** The statuses from which the table lets an order enter s. */
  function EnteredFrom(s: Status): set<Status> {
    match s
    case Processing => {PendingPayment, AwaitingApproval, Paused}
    case Confirming => {Processing, AwaitingApproval, Delivering, Unfulfilled}
    case Bridging => {Processing, Confirming, Swapping, Unfulfilled}
    case Swapping => {Processing, Confirming, Bridging, AwaitingApproval, Unfulfilled}
    case AwaitingApproval => {Processing, Swapping}
    case Paused => {Processing, Confirming, Bridging, Swapping, AwaitingApproval, Refunding, Delivering}
    case Delivering => {Processing, Confirming, Bridging, Swapping, Unfulfilled}
    case Delivered => {Processing, Confirming, Bridging, Swapping, Delivering, Unfulfilled}
    case Refunding => {Processing, Confirming, Swapping, AwaitingApproval, Delivering}
    case Refunded => {Processing, Confirming, Bridging, Swapping, AwaitingApproval, Refunding, Delivering}
    case Failed =>
      {Processing, Confirming, Bridging, Swapping, AwaitingApproval, Paused, Refunding, Delivering}
    case Expired => {Processing, Confirming}
    case Unfulfilled => {Processing}
    case _ => {}
  }

  /** Rows and columns of the transition table agree. */
  lemma TableByColumns(a: Status, b: Status)
    ensures b in Allowed(a) <==> a in EnteredFrom(b)
  {
    match a
    case PendingPayment =>
    case Processing =>
    case Confirming =>
    case Bridging =>
    case Swapping =>
    case AwaitingApproval =>
    case Paused =>
    case Delivering =>
    case Delivered =>
    case Refunding =>
    case Refunded =>
    case Failed =>
    case Expired =>
    case Unfulfilled =>
    case UnknownStatus(_) =>
  }

  /** The terminal statuses are exactly the documented ones without a way out. */
  lemma TerminalIff(s: Status)
    requires !s.UnknownStatus?
    ensures Terminal(s) <==> forall t :: t !in Allowed(s)
  {
    if !Terminal(s) {
      var t := if s == PendingPayment then Processing
               else if s == Unfulfilled then Delivered
               else Failed;
      TableByColumns(s, t);
      assert t in Allowed(s);
    }
  }

  /** What the handler does with a mapped event on an order in a known status, exactly. */
  lemma DecideIff(current: Status, e: Event)
    requires !current.UnknownStatus? && Mapped(e)
    ensures Decide(current, e) == Apply(StatusOf(e)) <==>
              !Terminal(current) && (Terminal(StatusOf(e)) || TableEdge(current, StatusOf(e)))
    ensures Decide(current, e) == NoOp <==> current == StatusOf(e)
    ensures Decide(current, e) == Skip <==>
              && current != StatusOf(e)
              && (Terminal(current) || (!Terminal(StatusOf(e)) && !TableEdge(current, StatusOf(e))))
  {
    TableByColumns(EffectiveStatus(current, StatusOf(e)), StatusOf(e));
    NoSelfEdge(StatusOf(e));
    if Terminal(current) { TerminalIff(current); }
  }

  /** The table has no edge from a status to itself. */
  lemma NoSelfEdge(s: Status)
    ensures s !in Allowed(s)
  {
    TableByColumns(s, s);
  }
}
