/**
  The order life cycle of src/swap/swap-state-machine.ts. Statuses and event names are strings in
  the database and on the wire; the documented ones are constructors here and every other string
  is carried by UnknownStatus or UnknownEvent.
 */
module SwapStateMachine {

  datatype Status =
    | PendingPayment | Processing | Confirming | Bridging | Swapping | AwaitingApproval | Paused
    | Delivering | Delivered | Refunding | Refunded | Failed | Expired | Unfulfilled
    | UnknownStatus(text: string)

  datatype Event =
    | OrderPaused | OrderExpired | OrderProcessing | OrderConfirming | OrderBridging | OrderSwapping
    | OrderAwaitingApproval | OrderRefunding | OrderDelivering | OrderCompleted | OrderFailed
    | OrderUnfulfilled | OrderRefunded
    | RecoveryRequired
    | UnknownEvent(name: string)

  datatype Decision = Apply(next: Status) | NoOp | Skip | Throws

  predicate Terminal(s: Status) {
    s in {Delivered, Refunded, Failed, Expired}
  }

  /** The allowed-transition table; the entry of an unknown status is empty and never consulted. */
  function Allowed(s: Status): set<Status> {
    match s
    case PendingPayment => {Processing}
    case Processing =>
      {Confirming, Bridging, Swapping, AwaitingApproval, Paused, Refunding, Delivering, Delivered,
       Failed, Expired, Unfulfilled, Refunded}
    case Confirming =>
      {Bridging, Swapping, Refunding, Paused, Delivering, Delivered, Failed, Expired, Refunded}
    case Bridging => {Swapping, Paused, Delivering, Delivered, Failed, Refunded}
    case Swapping =>
      {AwaitingApproval, Paused, Refunding, Bridging, Delivering, Delivered, Failed, Refunded}
    case AwaitingApproval =>
      {Processing, Confirming, Swapping, Refunding, Paused, Failed, Refunded}
    case Paused => {Processing, Failed}
    case Refunding => {Paused, Refunded, Failed}
    case Delivering => {Confirming, Paused, Refunding, Delivered, Failed, Refunded}
    case Unfulfilled => {Confirming, Bridging, Swapping, Delivering, Delivered}
    case _ => {}
  }

  /** classifyTransition: a repeat is a no-op even for an unknown status, which otherwise throws. */
  function Classify(current: Status, next: Status): Decision {
    if current == next then NoOp
    else if current.UnknownStatus? then Throws
    else if next !in Allowed(current) then Skip
    else Apply(next)
  }

  /** The events mapEventToStatus knows. */
  predicate Mapped(e: Event) {
    !e.RecoveryRequired? && !e.UnknownEvent?
  }

  function StatusOf(e: Event): Status
    requires Mapped(e)
  {
    match e
    case OrderPaused => Paused
    case OrderExpired => Expired
    case OrderProcessing => Processing
    case OrderConfirming => Confirming
    case OrderBridging => Bridging
    case OrderSwapping => Swapping
    case OrderAwaitingApproval => AwaitingApproval
    case OrderRefunding => Refunding
    case OrderDelivering => Delivering
    case OrderCompleted => Delivered
    case OrderFailed => Failed
    case OrderUnfulfilled => Unfulfilled
    case OrderRefunded => Refunded
  }

  predicate TerminalEvent(e: Event) {
    Mapped(e) && Terminal(StatusOf(e))
  }

  /** A pending order is read as PROCESSING unless the event itself says processing. */
  function EffectiveStatus(current: Status, attempted: Status): Status {
    if current == PendingPayment && attempted != Processing then Processing else current
  }

  /** What the webhook handler does with an event that is not a recovery hold. */
  function Decide(current: Status, e: Event): Decision
    requires !e.RecoveryRequired?
  {
    if !Mapped(e) then Throws
    else
      var attempted := StatusOf(e);
      var effective := EffectiveStatus(current, attempted);
      if !Terminal(effective) && Terminal(attempted) then Apply(attempted)
      else Classify(effective, attempted)
  }

  /** A table edge, with the first step out of PENDING_PAYMENT read as leaving PROCESSING. */
  predicate TableEdge(a: Status, b: Status) {
    b in Allowed(EffectiveStatus(a, b))
  }

  /** One status change the handler can make: a table edge, or a jump from a live status into a terminal one. */
  predicate Advances(a: Status, b: Status) {
    !Terminal(a) && b != PendingPayment && !b.UnknownStatus? && (TableEdge(a, b) || Terminal(b))
  }

  /** The decision, stated by what it may do to an order in a known status. */
  lemma DecideIsSound(current: Status, e: Event)
    requires !current.UnknownStatus? && Mapped(e)
    ensures Decide(current, e) != Throws
    ensures Decide(current, e).Apply? ==>
              Decide(current, e).next == StatusOf(e) && Advances(current, StatusOf(e))
    ensures TerminalEvent(e) ==>
              (Decide(current, e).Apply? <==> !Terminal(current))
  {
  }

  /** The first mapped event an order still awaiting payment sees is always applied. */
  lemma FirstEventIsApplied(e: Event)
    requires Mapped(e)
    ensures Decide(PendingPayment, e) == Apply(StatusOf(e))
  {
  }
}
