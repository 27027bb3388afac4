/**
 * Whole histories of the ledger: any sequence of transactions, in any order, for any bookings and
 * brokers, keeps every booking's books in balance and accounts for every payment exactly once.
 */
module CommissionRuns {
  import opened Common
  import opened CommissionRules
  import opened CommissionLedger
  import opened CommissionSettlement

  // ---------------------------------------------------------------- transactions as actions

  datatype Action =
    | TakeSnapshot(booking: BookingId, terms: Terms)
    | AccrueTotal(booking: BookingId)
    | AccrueMilestone(booking: BookingId, milestones: seq<int>, index: nat)
    | Cancel(booking: BookingId, policy: ClawbackPolicy)
    | RequestPay(broker: BrokerId, amount: int)
    | ApprovePay(id: PaymentId)
    | RejectPay(id: PaymentId)
    | MakePay(id: PaymentId, rule: Option<TdsRule>)

  /** What the request schemas and rule validation let through. */
  ghost predicate ValidAction(a: Action) {
    match a
    case TakeSnapshot(_, terms) => ValidTerms(terms)
    case AccrueMilestone(_, milestones, i) => Ascending(milestones) && i < |milestones|
    case RequestPay(_, amount) => amount >= 1
    case MakePay(_, rule) => ValidTdsRule(rule)
    case _ => true
  }

  function OrElse(r: Result<Ledger, LedgerError>, l: Ledger): Ledger {
    if r.Success? then r.value else l
  }

  /** A refused transaction leaves the ledger as it was. */
  function Apply(bookings: map<BookingId, Booking>, l: Ledger, a: Action): Ledger {
    match a
    case TakeSnapshot(b, terms) =>
      if b !in bookings || bookings[b].broker.None? then l
      else
        var s := Snapshot(l, b, bookings[b].price, terms);
        if s.Some? then s.value else l
    case AccrueTotal(b) =>
      if b !in bookings || bookings[b].broker.None? || b !in l.snapshots then l
      else AccrueOnce(l, b, bookings[b].broker.value, l.snapshots[b], None)
    case AccrueMilestone(b, milestones, i) =>
      if b !in bookings || bookings[b].broker.None? || b !in l.snapshots || !Ascending(milestones)
         || i >= |milestones| then l
      else
        AccrueOnce(l, b, bookings[b].broker.value, MilestoneShares(l.snapshots[b], milestones)[i], Some(milestones[i]))
    case Cancel(b, policy) =>
      if b !in bookings || bookings[b].broker.None? then l
      else Clawback(l, b, bookings[b].broker.value, policy)
    case RequestPay(r, amount) => OrElse(Request(l, r, amount), l)
    case ApprovePay(id) => OrElse(Decide(l, id, Approved), l)
    case RejectPay(id) => OrElse(Decide(l, id, Rejected), l)
    case MakePay(id, rule) => OrElse(Pay(l, id, rule), l)
  }

  function Run(bookings: map<BookingId, Booking>, l: Ledger, actions: seq<Action>): Ledger {
    if actions == [] then l
    else Apply(bookings, Run(bookings, l, actions[..|actions| - 1]), actions[|actions| - 1])
  }

  // ---------------------------------------------------------------- the invariant

  /**
   * One booking's books. No conjunct survives on its own: a payment needs the clawback sum to stay
   * within the accrual, a cancellation needs the accrual bound to keep the clawback sum down.
   */
  ghost predicate Balanced(entries: seq<Entry>, b: BookingId) {
    && Total(entries, Cash(b)) >= 0 && Total(entries, Tds(b)) >= 0
    && Total(entries, Cash(b)) + Total(entries, Tds(b)) <= Total(entries, Accrued(b))
    && Total(entries, Clawed(b)) <= 0
    && Total(entries, Outstanding(b)) >= -Total(entries, Cash(b))
  }

  function PaidOut(payments: seq<PaymentRow>, r: BrokerId): int {
    if payments == [] then 0
    else
      var p := payments[|payments| - 1];
      PaidOut(payments[..|payments| - 1], r) + if p.broker == r && p.status == Paid then p.amount else 0
  }

  /** Cash and tax posted for a broker are the amounts of its PAID payments, no more and no less. */
  ghost predicate Conserved(l: Ledger) {
    forall r :: Total(l.entries, Disbursed(r)) == PaidOut(l.payments, r)
  }

  ghost predicate Inv(bookings: map<BookingId, Booking>, l: Ledger) {
    && OwnBroker(bookings, l.entries)
    && (forall b :: Balanced(l.entries, b))
    && Conserved(l)
    && (forall b :: b in l.snapshots ==> l.snapshots[b] >= 0)
  }

  /** Appending entries keeps the books when their per-booking effect does. */
  lemma AppendBalanced(entries: seq<Entry>, more: seq<Entry>, b: BookingId)
    requires Balanced(entries, b)
    requires var out := Total(entries, Outstanding(b)) + Total(more, Outstanding(b));
             var cash, tds := Total(entries, Cash(b)) + Total(more, Cash(b)), Total(entries, Tds(b)) + Total(more, Tds(b));
             && cash >= 0 && tds >= 0
             && cash + tds <= Total(entries, Accrued(b)) + Total(more, Accrued(b))
             && Total(entries, Clawed(b)) + Total(more, Clawed(b)) <= 0
             && out >= -cash
    ensures Balanced(entries + more, b)
  {
    ConcatTotals(entries, more, b);
  }

  // ---------------------------------------------------------------- accrual keeps it

  lemma AccrueOnceKeeps(bookings: map<BookingId, Booking>, l: Ledger, b: BookingId, amount: int, m: Option<int>)
    requires Inv(bookings, l) && b in bookings && bookings[b].broker.Some? && amount >= 0
    ensures Inv(bookings, AccrueOnce(l, b, bookings[b].broker.value, amount, m))
  {
    hide Total, Balanced, HasAccrual, PaidOut;
    var e := Entry(bookings[b].broker.value, b, Accrual, amount, m);
    var after := AccrueOnce(l, b, bookings[b].broker.value, amount, m);
    if after != l {
      forall c
        ensures Balanced(after.entries, c)
      {
        AccrualBalanced(l.entries, e, c);
      }
      forall r
        ensures Total(after.entries, Disbursed(r)) == PaidOut(after.payments, r)
      {
        TotalAppend(l.entries, e, Disbursed(r));
      }
    }
  }

  lemma AccrualBalanced(entries: seq<Entry>, e: Entry, b: BookingId)
    requires Balanced(entries, b) && e.kind == Accrual && e.amount >= 0
    ensures Balanced(entries + [e], b)
  {
    SingleTotals(e, b);
    AppendBalanced(entries, [e], b);
  }

  lemma SingleTotals(e: Entry, b: BookingId)
    ensures forall q :: Total([e], q) == Weight(q, e)
  {
    assert [e][..0] == [];
  }

  // ---------------------------------------------------------------- cancellation keeps it

  lemma ReversalTotals(entries: seq<Entry>, b: BookingId, r: BrokerId, q: Query)
    ensures Total(Reversal(entries, b, r), q) ==
            Weight(q, Entry(r, b, ClawbackReversal, -Total(entries, Outstanding(b)), None))
  {
    SingleTotals(Entry(r, b, ClawbackReversal, -Total(entries, Outstanding(b)), None), b);
  }

  lemma CashClawbackTotals(entries: seq<Entry>, b: BookingId, r: BrokerId, policy: ClawbackPolicy, q: Query)
    requires Total(entries, Cash(b)) >= 0
    ensures Total(CashClawback(entries, b, r, policy), q) ==
            if policy == WriteOff then 0 else Weight(q, Entry(r, b, ClawbackRecovery, -Total(entries, Cash(b)), None))
  {
    SingleTotals(Entry(r, b, ClawbackRecovery, -Total(entries, Cash(b)), None), b);
    SingleTotals(Entry(r, b, ClawbackWriteoff, 0, None), b);
  }

  /** What a cancellation adds to any account. */
  lemma ClawbackAdds(l: Ledger, b: BookingId, r: BrokerId, policy: ClawbackPolicy, q: Query)
    requires Total(l.entries, Cash(b)) >= 0
    ensures Total(Clawback(l, b, r, policy).entries, q) == Total(l.entries, q)
              + Weight(q, Entry(r, b, ClawbackReversal, -Total(l.entries, Outstanding(b)), None))
              + (if policy == WriteOff then 0
                 else Weight(q, Entry(r, b, ClawbackRecovery, -Total(l.entries, Cash(b)), None)))
  {
    hide Weight, Reversal, CashClawback;
    var x, y := Reversal(l.entries, b, r), CashClawback(l.entries, b, r, policy);
    TotalConcat(l.entries, x + y, q);
    TotalConcat(x, y, q);
    ReversalTotals(l.entries, b, r, q);
    CashClawbackTotals(l.entries, b, r, policy, q);
  }

  /** After a cancellation nothing is left outstanding but, under RECOVER, the cash to be recovered. */
  lemma ClawbackTotals(l: Ledger, b: BookingId, r: BrokerId, policy: ClawbackPolicy, c: BookingId)
    requires Total(l.entries, Cash(b)) >= 0
    ensures var after := Clawback(l, b, r, policy).entries;
            && Total(after, Cash(c)) == Total(l.entries, Cash(c))
            && Total(after, Tds(c)) == Total(l.entries, Tds(c))
            && Total(after, Accrued(c)) == Total(l.entries, Accrued(c))
            && Total(after, Outstanding(c)) ==
               (if c != b then Total(l.entries, Outstanding(c))
                else if policy == Recover then -Total(l.entries, Cash(b))
                else 0)
            && (c != b ==> Total(after, Clawed(c)) == Total(l.entries, Clawed(c)))
  {
    hide Clawback, Total;
    ClawbackAdds(l, b, r, policy, Cash(c));
    ClawbackAdds(l, b, r, policy, Tds(c));
    ClawbackAdds(l, b, r, policy, Accrued(c));
    ClawbackAdds(l, b, r, policy, Outstanding(c));
    ClawbackAdds(l, b, r, policy, Clawed(c));
  }

  lemma ClawbackKeeps(bookings: map<BookingId, Booking>, l: Ledger, b: BookingId, policy: ClawbackPolicy)
    requires Inv(bookings, l) && b in bookings && bookings[b].broker.Some?
    ensures Inv(bookings, Clawback(l, b, bookings[b].broker.value, policy))
  {
    hide Total, PaidOut;
    var r := bookings[b].broker.value;
    var after := Clawback(l, b, r, policy);
    forall c
      ensures Balanced(after.entries, c)
    {
      assert Balanced(l.entries, b);
      ClawbackTotals(l, b, r, policy, c);
      OutstandingSplits(after.entries, c);
      OutstandingSplits(l.entries, c);
      assert Balanced(l.entries, c);
    }
    assert Balanced(l.entries, b);
    forall other
      ensures Total(after.entries, Disbursed(other)) == PaidOut(after.payments, other)
    {
      ClawbackAdds(l, b, r, policy, Disbursed(other));
    }
  }

  // ---------------------------------------------------------------- payment keeps it

  lemma {:induction false} PaidOutUpdate(payments: seq<PaymentRow>, id: nat, p: PaymentRow, r: BrokerId)
    requires id < |payments|
    ensures PaidOut(payments[id := p], r) == PaidOut(payments, r)
              - (if payments[id].broker == r && payments[id].status == Paid then payments[id].amount else 0)
              + (if p.broker == r && p.status == Paid then p.amount else 0)
  {
    var n := |payments| - 1;
    if id == n {
      assert payments[id := p][..n] == payments[..n];
    } else {
      assert payments[id := p][..n] == payments[..n][id := p];
      PaidOutUpdate(payments[..n], id, p, r);
    }
  }

  lemma PayKeeps(bookings: map<BookingId, Booking>, l: Ledger, id: PaymentId, rule: Option<TdsRule>)
    requires Inv(bookings, l) && PayProblem(l, id) == None && ValidTdsRule(rule)
    ensures Inv(bookings, Pay(l, id, rule).value)
  {
    hide Pay, PayEntries;
    PayGoesThrough(l, id, rule);
    PayDecomposed(l, id, rule);
    var p, posted, after := l.payments[id], PayEntries(l, id, rule), Pay(l, id, rule).value;
    forall b
      ensures Balanced(after.entries, b)
    {
      PayPerBooking(bookings, l, id, rule, b);
      OutstandingSplits(l.entries, b);
      assert Balanced(l.entries, b);
      AppendBalanced(l.entries, posted, b);
    }
    PayOwned(bookings, l, id, rule);
    forall r
      ensures Total(after.entries, Disbursed(r)) == PaidOut(after.payments, r)
    {
      PayDisburses(l, id, rule, r);
      PaidOutUpdate(l.payments, id, p.(status := Paid), r);
      assert Total(l.entries, Disbursed(r)) == PaidOut(l.payments, r);
    }
  }

  lemma PayGoesThrough(l: Ledger, id: PaymentId, rule: Option<TdsRule>)
    ensures Pay(l, id, rule).Success? <==> PayProblem(l, id) == None
  {
  }

  lemma PayDecomposed(l: Ledger, id: PaymentId, rule: Option<TdsRule>)
    requires PayProblem(l, id) == None
    ensures id < |l.payments| && l.payments[id].status == Approved
    ensures var after := Pay(l, id, rule).value;
            && after.entries == l.entries + PayEntries(l, id, rule)
            && after.payments == l.payments[id := l.payments[id].(status := Paid)]
            && after.snapshots == l.snapshots
  {
  }

  lemma PayDisburses(l: Ledger, id: PaymentId, rule: Option<TdsRule>, r: BrokerId)
    requires PayProblem(l, id) == None && ValidTdsRule(rule)
    ensures id < |l.payments|
    ensures Total(Pay(l, id, rule).value.entries, Disbursed(r)) == Total(l.entries, Disbursed(r))
              + (if r == l.payments[id].broker then l.payments[id].amount else 0)
  {
    var p := l.payments[id];
    PayShares(l, id, rule);
    var takes := TakesFor(l.entries, p);
    PostingsPerBroker(p.broker, takes, TdsShares(TdsOn(p.amount, rule), takes), r);
    TotalConcat(l.entries, PayEntries(l, id, rule), Disbursed(r));
  }

  lemma PayOwned(bookings: map<BookingId, Booking>, l: Ledger, id: PaymentId, rule: Option<TdsRule>)
    requires OwnBroker(bookings, l.entries)
    requires PayProblem(l, id) == None && ValidTdsRule(rule)
    ensures OwnBroker(bookings, Pay(l, id, rule).value.entries)
  {
    var p := l.payments[id];
    PayShares(l, id, rule);
    var takes := TakesFor(l.entries, p);
    forall i | 0 <= i < |takes|
      ensures takes[i].booking in bookings && bookings[takes[i].booking].broker == Some(p.broker)
    {
      GrossAtLeast(takes, i, takes[i].booking);
      TakenWithinOutstanding(bookings, l.entries, p, takes[i].booking);
    }
    PostingsOwned(bookings, p.broker, takes, TdsShares(TdsOn(p.amount, rule), takes));
  }

  // ---------------------------------------------------------------- every run keeps it

  lemma ApplyKeeps(bookings: map<BookingId, Booking>, l: Ledger, a: Action)
    requires Inv(bookings, l) && ValidAction(a)
    requires forall b :: b in bookings ==> bookings[b].price >= 0
    ensures Inv(bookings, Apply(bookings, l, a))
  {
    hide Inv, Pay, Clawback, AccrueOnce, Balanced;
    match a
    case TakeSnapshot(b, terms) =>
      if b in bookings {
        CommissionWithin(bookings[b].price, terms);
        SnapshotKeeps(bookings, l, b, terms);
      }
    case AccrueTotal(b) =>
      if b in bookings && bookings[b].broker.Some? && b in l.snapshots {
        SnapshotNonNegative(bookings, l, b);
        AccrueOnceKeeps(bookings, l, b, l.snapshots[b], None);
      }
    case AccrueMilestone(b, milestones, i) =>
      if b in bookings && bookings[b].broker.Some? && b in l.snapshots {
        SnapshotNonNegative(bookings, l, b);
        MilestoneSharesPartition(l.snapshots[b], milestones);
        AccrueOnceKeeps(bookings, l, b, MilestoneShares(l.snapshots[b], milestones)[i], Some(milestones[i]));
      }
    case Cancel(b, policy) =>
      if b in bookings && bookings[b].broker.Some? {
        ClawbackKeeps(bookings, l, b, policy);
      }
    case RequestPay(r, amount) =>
      RequestKeeps(bookings, l, r, amount);
    case ApprovePay(id) =>
      DecideKeeps(bookings, l, id, Approved);
    case RejectPay(id) =>
      DecideKeeps(bookings, l, id, Rejected);
    case MakePay(id, rule) =>
      PayGoesThrough(l, id, rule);
      if Pay(l, id, rule).Success? {
        PayKeeps(bookings, l, id, rule);
      }
  }

  lemma SnapshotNonNegative(bookings: map<BookingId, Booking>, l: Ledger, b: BookingId)
    requires Inv(bookings, l) && b in l.snapshots
    ensures l.snapshots[b] >= 0
  {
  }

  lemma SnapshotKeeps(bookings: map<BookingId, Booking>, l: Ledger, b: BookingId, terms: Terms)
    requires Inv(bookings, l) && b in bookings
    requires ComputeCommissionPaise(bookings[b].price, terms).Some?
    requires ComputeCommissionPaise(bookings[b].price, terms).value >= 0
    ensures Snapshot(l, b, bookings[b].price, terms).Some?
    ensures Inv(bookings, Snapshot(l, b, bookings[b].price, terms).value)
  {
  }

  lemma RequestKeeps(bookings: map<BookingId, Booking>, l: Ledger, r: BrokerId, amount: int)
    requires Inv(bookings, l)
    ensures Inv(bookings, OrElse(Request(l, r, amount), l))
  {
    var row := PaymentRow(r, amount, Requested);
    assert (l.payments + [row])[..|l.payments|] == l.payments;
  }

  lemma DecideKeeps(bookings: map<BookingId, Booking>, l: Ledger, id: PaymentId, outcome: PaymentStatus)
    requires Inv(bookings, l) && outcome != Paid
    ensures Inv(bookings, OrElse(Decide(l, id, outcome), l))
  {
    var after := OrElse(Decide(l, id, outcome), l);
    if id < |l.payments| {
      forall r
        ensures PaidOut(after.payments, r) == PaidOut(l.payments, r)
      {
        PaidOutUpdate(l.payments, id, l.payments[id].(status := outcome), r);
      }
    }
  }

  /** Over every run from the empty ledger, every booking balances and every payment is accounted for once. */
  lemma {:induction false} EveryRunKeepsTheBooks(bookings: map<BookingId, Booking>, actions: seq<Action>)
    requires forall b :: b in bookings ==> bookings[b].price >= 0
    requires forall i :: 0 <= i < |actions| ==> ValidAction(actions[i])
    ensures Inv(bookings, Run(bookings, EMPTY, actions))
  {
    if actions != [] {
      EveryRunKeepsTheBooks(bookings, actions[..|actions| - 1]);
      ApplyKeeps(bookings, Run(bookings, EMPTY, actions[..|actions| - 1]), actions[|actions| - 1]);
    }
  }

  // ---------------------------------------------------------------- a payment's own history

  /** How a status may move: out of REQUESTED by a decision, out of APPROVED by being paid, and no further. */
  predicate Follows(before: PaymentStatus, after: PaymentStatus) {
    before == after || before == Requested || (before == Approved && after == Paid)
  }

  /** Broker and amount of a payment never change; PAID and REJECTED are final. */
  lemma {:induction false} PaymentsAdvance(bookings: map<BookingId, Booking>, l: Ledger, actions: seq<Action>, id: PaymentId)
    requires id < |l.payments|
    ensures var after := Run(bookings, l, actions);
            && id < |after.payments|
            && after.payments[id].broker == l.payments[id].broker
            && after.payments[id].amount == l.payments[id].amount
            && Follows(l.payments[id].status, after.payments[id].status)
  {
    hide PayEntries, Takes, Dues, AccrueOnce, Clawback, Snapshot, MilestoneShares;
    if actions != [] {
      PaymentsAdvance(bookings, l, actions[..|actions| - 1], id);
      var before := Run(bookings, l, actions[..|actions| - 1]);
      StatusStep(bookings, before, actions[|actions| - 1], id);
    }
  }

  lemma StatusStep(bookings: map<BookingId, Booking>, l: Ledger, a: Action, id: PaymentId)
    requires id < |l.payments|
    ensures var after := Apply(bookings, l, a);
            && id < |after.payments|
            && after.payments[id].broker == l.payments[id].broker
            && after.payments[id].amount == l.payments[id].amount
            && Follows(l.payments[id].status, after.payments[id].status)
            && (l.payments[id].status == Requested ==> after.payments[id].status != Paid)
  {
    hide PayEntries, Takes, Dues, MilestoneShares;
  }

  /** Nothing is paid that was not approved: between the request and PAID the payment stood at APPROVED. */
  lemma {:induction false} PaidWasApproved(bookings: map<BookingId, Booking>, l: Ledger, actions: seq<Action>, id: PaymentId)
    returns (k: nat)
    requires id < |l.payments| && l.payments[id].status == Requested
    requires id < |Run(bookings, l, actions).payments| && Run(bookings, l, actions).payments[id].status == Paid
    ensures k <= |actions| && id < |Run(bookings, l, actions[..k]).payments|
    ensures Run(bookings, l, actions[..k]).payments[id].status == Approved
  {
    hide Apply;
    var n := |actions| - 1;
    PaymentsAdvance(bookings, l, actions[..n], id);
    StatusStep(bookings, Run(bookings, l, actions[..n]), actions[n], id);
    if Run(bookings, l, actions[..n]).payments[id].status == Paid {
      k := PaidWasApproved(bookings, l, actions[..n], id);
      assert actions[..n][..k] == actions[..k];
    } else {
      k := n;
    }
  }
}
