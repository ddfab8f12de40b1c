/**
  Refund cases over whole runs: what opened each case and said what it says, and that the first
  resolution of a case is the last.
 */
module SwapCases {
  import opened Common
  import opened SwapStateMachine
  import opened SwapTables
  import opened SwapInvariant
  import opened SwapDelivery
  import opened SwapMeaning

  // ----- where cases come from

  /** One of the steps delivers p, about the order of the invoice. */
  ghost predicate DeliveredFor(orders: seq<Order>, id: string, p: Payload, steps: seq<Step>) {
    exists j :: 0 <= j < |orders| && orders[j].invoiceId == id && DeliveredTo(orders[j], p, steps)
  }

  /** The reason with which the event of p opens a case. */
  predicate GivesReason(p: Payload, reason: string) {
    || (p.event == RecoveryRequired && reason == "PAYMENT_RECOVERY_REQUIRED")
    || (p.event == OrderFailed
        && reason == "PAYMENT_FAILED: " + (if p.errorCode.Some? then p.errorCode.value else "no_code") + " | "
                     + if p.errorMessage.Some? then p.errorMessage.value else "no_message")
  }

  /** A case was opened by a failure or a recovery hold of its order; what else it says, its resolution said. */
  ghost predicate CaseTold(orders: seq<Order>, id: string, c: Refund, steps: seq<Step>) {
    && (exists p, reason :: DeliveredFor(orders, id, p, steps) && GivesReason(p, reason)
                            && (c.reason == reason || ResolveAbandoned(id, Some(c.reason)) in steps))
    && (c.status == Paid ==> exists ref, payee :: ResolvePaid(id, ref, payee) in steps)
    && (c.status == Abandoned ==> exists reason :: ResolveAbandoned(id, reason) in steps)
    && (c.externalRef.Some? ==> exists payee :: ResolvePaid(id, c.externalRef, payee) in steps)
    && (c.payeeLnAddress.Some? ==> exists ref :: ResolvePaid(id, ref, c.payeeLnAddress) in steps)
  }

  ghost predicate CasesTold(s: Store, steps: seq<Step>) {
    forall id :: id in s.refunds ==> CaseTold(s.orders, id, s.refunds[id], steps)
  }

  /** Orders keep the traces of their cases while rows only advance or are appended. */
  lemma CaseStaysTold(a: seq<Order>, b: seq<Order>, id: string, c: Refund, steps: seq<Step>)
    requires |a| <= |b| && forall j :: 0 <= j < |a| ==> RowStep(a[j], b[j])
    requires CaseTold(a, id, c, steps)
    ensures CaseTold(b, id, c, steps)
  {
    forall p | DeliveredFor(a, id, p, steps) ensures DeliveredFor(b, id, p, steps) {
      var j :| 0 <= j < |a| && a[j].invoiceId == id && DeliveredTo(a[j], p, steps);
      assert RowStep(a[j], b[j]) && DeliveredTo(b[j], p, steps);
    }
  }

  /** One case is new, with the invoice's satoshis and the reason that the event of p gives. */
  ghost predicate Opened(s: Store, refunds: map<string, Refund>, id: string, p: Payload) {
    exists reason :: GivesReason(p, reason) &&
                     refunds == s.refunds[id := Refund(AmountSats(s.invoices, id), reason, Open, None, None)]
  }

  lemma HandleOpens(s: Store, i: nat, p: Payload)
    requires i < |s.orders|
    ensures var h := Handle(s, i, p);
            h.Committed? && h.store.refunds != s.refunds ==> Opened(s, h.store.refunds, s.orders[i].invoiceId, p)
  {
    assert p.event == OrderFailed ==> GivesReason(p, FailureReason(p));
    assert p.event == RecoveryRequired ==> GivesReason(p, "PAYMENT_RECOVERY_REQUIRED");
  }

  /** A delivery opens a case only for the order it finds, for the reason its event gives. */
  lemma DeliveryOpens(s: Store, i: nat, p: Payload)
    requires i < |s.orders| && Locate(s.orders, p) == i
    ensures var t := After(s, Deliver(p));
            t.refunds == s.refunds || (Arrives(s, i, p) && Opened(s, t.refunds, s.orders[i].invoiceId, p))
  {
    DeliveryHandles(s, i, p);
    if Arrives(s, i, p) {
      HandleOpens(BindOrder(WithEvent(s, KeyOf(p)), i, p.orderId), i, p);
    }
  }

  /** The order of a new case is bound to the payload that opened it. */
  lemma OpenerIsDelivered(s: Store, i: nat, p: Payload, steps: seq<Step>)
    requires Arrives(s, i, p) && !s.orders[i].status.UnknownStatus? && After(s, Deliver(p)) != s && Deliver(p) in steps
    ensures DeliveredFor(After(s, Deliver(p)).orders, s.orders[i].invoiceId, p, steps)
  {
    DeliveryWrites(s, i, p);
    assert DeliveredTo(After(s, Deliver(p)).orders[i], p, steps);
  }

  lemma OpenedIsTold(s: Store, orders: seq<Order>, refunds: map<string, Refund>, id: string, p: Payload,
                     steps: seq<Step>)
    requires Opened(s, refunds, id, p) && DeliveredFor(orders, id, p, steps)
    ensures CaseTold(orders, id, refunds[id], steps)
    ensures forall other :: other in refunds && other != id ==> other in s.refunds && refunds[other] == s.refunds[other]
  {
  }

  lemma DeliveryTellsCases(s: Store, p: Payload, steps: seq<Step>)
    requires Inv(s) && CasesTold(s, steps) && Deliver(p) in steps
    ensures CasesTold(After(s, Deliver(p)), steps)
  {
    var t, i := After(s, Deliver(p)), Locate(s.orders, p);
    ApplyKeepsInv(s, p);
    if t.refunds != s.refunds {
      OtherRefundsStay(s, p);
      DeliveryOpens(s, i, p);
      assert GoodRow(s, s.orders[i]);
      OpenerIsDelivered(s, i, p, steps);
      OpenedIsTold(s, t.orders, t.refunds, s.orders[i].invoiceId, p, steps);
    }
    forall id | id in t.refunds ensures CaseTold(t.orders, id, t.refunds[id], steps) {
      if id in s.refunds && t.refunds[id] == s.refunds[id] {
        CaseStaysTold(s.orders, t.orders, id, s.refunds[id], steps);
      }
    }
  }

  /** A delivery that finds no order changes no case. */
  lemma OtherRefundsStay(s: Store, p: Payload)
    ensures After(s, Deliver(p)).refunds != s.refunds ==> Locate(s.orders, p) < |s.orders|
  {
    DeliverCases(s, p);
  }

  lemma RequestTellsCases(s: Store, q: Quote, steps: seq<Step>)
    requires Inv(s) && CasesTold(s, steps)
    ensures CasesTold(After(s, Request(q)), steps)
  {
    var t := After(s, Request(q));
    RequestKeepsInv(s, q);
    RequestEffect(s, q);
    forall id | id in t.refunds ensures CaseTold(t.orders, id, t.refunds[id], steps) {
      CaseStaysTold(s.orders, t.orders, id, s.refunds[id], steps);
    }
  }

  /** What one resolution makes of its case. */
  predicate ResolvedBy(c: Refund, d: Refund, step: Step)
    requires step.ResolvePaid? || step.ResolveAbandoned?
  {
    && d.amountSats == c.amountSats
    && if step.ResolvePaid? then
        && d.status == Paid && d.reason == c.reason
        && (if step.externalRef.Some? then d.externalRef == step.externalRef else d.externalRef == c.externalRef)
        && (if step.payee.Some? then d.payeeLnAddress == step.payee else d.payeeLnAddress == c.payeeLnAddress)
      else
        && d.status == Abandoned && d.externalRef == c.externalRef && d.payeeLnAddress == c.payeeLnAddress
        && (if step.reason.Some? then Some(d.reason) == step.reason else d.reason == c.reason)
  }

  /** The step resolves the case of the invoice, whether or not it is still open. */
  predicate Resolution(step: Step, id: string) {
    (step.ResolvePaid? || step.ResolveAbandoned?) && step.invoiceId == id
  }

  lemma ResolutionWrites(s: Store, step: Step, id: string)
    requires Resolution(step, id)
    ensures var t := After(s, step);
            if id in s.refunds && s.refunds[id].status == Open then
              && t == s.(refunds := t.refunds) && t.refunds.Keys == s.refunds.Keys
              && ResolvedBy(s.refunds[id], t.refunds[id], step)
              && forall other :: other in s.refunds && other != id ==> t.refunds[other] == s.refunds[other]
            else t == s
  {
  }

  lemma ResolutionTellsCases(s: Store, step: Step, id: string, steps: seq<Step>)
    requires Inv(s) && CasesTold(s, steps) && Resolution(step, id) && step in steps
    ensures CasesTold(After(s, step), steps)
  {
    ResolutionWrites(s, step, id);
  }

  lemma {:induction false} RunTellsCases(s: Store, steps: seq<Step>, all: seq<Step>)
    requires Inv(s) && CasesTold(s, all) && forall step :: step in steps ==> step in all
    ensures CasesTold(Run(s, steps), all)
    decreases |steps|
  {
    if steps != [] {
      match steps[0] {
        case Deliver(p) => DeliveryTellsCases(s, p, all);
        case Request(q) => RequestTellsCases(s, q, all);
        case ResolvePaid(id, _, _) => ResolutionTellsCases(s, steps[0], id, all);
        case ResolveAbandoned(id, _) => ResolutionTellsCases(s, steps[0], id, all);
      }
      StepKeepsInv(s, steps[0]);
      RunTellsCases(After(s, steps[0]), steps[1..], all);
    }
  }

  /**
    In every run from empty tables a refund case goes back to a failure or a recovery hold delivered
    to the order of its invoice, for the amount of the invoice; its status, references and later
    reason go back to a resolution of that case.
   */
  lemma EveryCaseWasTold(steps: seq<Step>)
    ensures var s := Run(EMPTY, steps);
            && CasesTold(s, steps)
            && forall id :: id in s.refunds ==> id in s.invoices && s.refunds[id].amountSats * 1000 == s.invoices[id]
  {
    RunTellsCases(EMPTY, steps, steps);
    RunKeepsInv(EMPTY, steps);
  }

  // ----- the first resolution is the last

  function FirstResolution(id: string, steps: seq<Step>): (k: nat)
    ensures k <= |steps|
    ensures k < |steps| ==> Resolution(steps[k], id)
    ensures forall j :: 0 <= j < k ==> !Resolution(steps[j], id)
  {
    if steps == [] || Resolution(steps[0], id) then 0 else 1 + FirstResolution(id, steps[1..])
  }

  lemma HandleKeepsCase(s: Store, i: nat, p: Payload, id: string)
    requires i < |s.orders| && id in s.refunds
    ensures var h := Handle(s, i, p);
            h.Committed? ==> id in h.store.refunds && h.store.refunds[id] == s.refunds[id]
  {
  }

  lemma DeliveryKeepsCase(s: Store, p: Payload, id: string)
    requires id in s.refunds
    ensures id in After(s, Deliver(p)).refunds && After(s, Deliver(p)).refunds[id] == s.refunds[id]
  {
    var s1 := WithEvent(s, KeyOf(p));
    var i := Locate(s1.orders, p);
    DeliverCases(s, p);
    if !s1.events[KeyOf(p)] && i < |s1.orders| && !QuoteMismatch(s1.orders[i], p) {
      HandleKeepsCase(BindOrder(s1, i, p.orderId), i, p, id);
    }
  }

  /** No step but a resolution touches a case. */
  lemma CaseIsKept(s: Store, step: Step, id: string)
    requires id in s.refunds && !Resolution(step, id)
    ensures id in After(s, step).refunds && After(s, step).refunds[id] == s.refunds[id]
  {
    match step
    case Deliver(p) => DeliveryKeepsCase(s, p, id);
    case Request(q) => RequestEffect(s, q);
    case ResolvePaid(other, _, _) => ResolutionWrites(s, step, other);
    case ResolveAbandoned(other, _) => ResolutionWrites(s, step, other);
  }

  lemma {:induction false} ResolvedCaseIsFrozen(s: Store, steps: seq<Step>, id: string)
    requires Inv(s) && id in s.refunds && s.refunds[id].status != Open
    ensures id in Run(s, steps).refunds && Run(s, steps).refunds[id] == s.refunds[id]
    decreases |steps|
  {
    if steps != [] {
      StepKeepsInv(s, steps[0]);
      ResolvedCaseIsFrozen(After(s, steps[0]), steps[1..], id);
    }
  }

  /**
    In every run an open case ends as its first resolution makes it, whatever resolutions and
    deliveries follow or surround it, and unchanged when there is none.
   */
  lemma {:induction false} FirstResolutionWins(s: Store, steps: seq<Step>, id: string)
    requires Inv(s) && id in s.refunds && s.refunds[id].status == Open
    ensures var k, end := FirstResolution(id, steps), Run(s, steps);
            && id in end.refunds
            && if k == |steps| then end.refunds[id] == s.refunds[id]
               else ResolvedBy(s.refunds[id], end.refunds[id], steps[k])
    decreases |steps|
  {
    if steps != [] {
      var t := After(s, steps[0]);
      StepKeepsInv(s, steps[0]);
      if Resolution(steps[0], id) {
        ResolutionWrites(s, steps[0], id);
        ResolvedCaseIsFrozen(t, steps[1..], id);
      } else {
        CaseIsKept(s, steps[0], id);
        FirstResolutionWins(t, steps[1..], id);
      }
    }
  }
}
