/**
 * The two commission services over their tables: each method is one database transaction (or, for
 * the accrual endpoint, a short series of them) that updates the tables in place.
 */
module CommissionStore {
  import opened Common
  import opened Money
  import opened Rounding
  import opened CommissionRules
  import opened CommissionLedger

  method NetReceivedFrom(receipts: seq<Receipt>) returns (netReceived: int)
    ensures netReceived == NetReceived(receipts)
  {
    netReceived := 0;
    for i := 0 to |receipts|
      invariant netReceived == NetReceived(receipts[..i])
    {
      assert receipts[..i + 1][..i] == receipts[..i];
      if Collected(receipts[i]) {
        var tds := Sum(receipts[i].tds);
        netReceived := netReceived + (receipts[i].gross - tds);
      }
    }
    assert receipts[..|receipts|] == receipts;
  }

  class Store {
    const brokers: set<BrokerId>
    const bookings: map<BookingId, Booking>
    var entries: seq<Entry>
    var payments: seq<PaymentRow>
    var snapshots: map<BookingId, int>

    function State(): Ledger
      reads this
    {
      Ledger(entries, payments, snapshots)
    }

    constructor (brokers: set<BrokerId>, bookings: map<BookingId, Booking>)
      ensures State() == EMPTY
      ensures this.brokers == brokers && this.bookings == bookings
    {
      this.brokers, this.bookings := brokers, bookings;
      entries, payments, snapshots := [], [], map[];
    }

    // -------------------------------------------------------------- accrual

    method FindAccrual(b: BookingId, milestone: Option<int>) returns (found: Option<Entry>)
      ensures found.None? <==> !HasAccrual(entries, b, milestone)
      ensures found.Some? ==> found.value in entries && found.value.booking == b && found.value.kind == Accrual
                              && found.value.milestone == milestone
    {
      for i := 0 to |entries|
        invariant !HasAccrual(entries[..i], b, milestone)
      {
        if entries[i].booking == b && entries[i].kind == Accrual && entries[i].milestone == milestone {
          return Some(entries[i]);
        }
        assert forall k :: 0 <= k < i ==> entries[..i + 1][k] == entries[..i][k];
      }
      assert entries[..|entries|] == entries;
      return None;
    }

    /** Find-or-create in one transaction. */
    method AccrueOnceTx(b: BookingId, r: BrokerId, amount: int, milestone: Option<int>) returns (entry: Entry)
      modifies this`entries
      ensures State() == AccrueOnce(old(State()), b, r, amount, milestone)
      ensures entry in entries && entry.booking == b && entry.kind == Accrual && entry.milestone == milestone
    {
      var existing := FindAccrual(b, milestone);
      if existing.Some? {
        return existing.value;
      }
      entry := Entry(r, b, Accrual, amount, milestone);
      entries := entries + [entry];
    }

    method AccrueOnMilestones(b: BookingId, r: BrokerId, total: int, price: int, milestones: seq<int>,
                              receipts: seq<Receipt>)
      returns (posted: seq<Entry>)
      requires Ascending(milestones)
      modifies this`entries
      ensures State() == AccrueReached(old(State()), b, r, milestones, MilestoneShares(total, milestones),
                                       CollectedHundredths(NetReceived(receipts), price), |milestones|)
      ensures forall e :: e in posted ==> e in entries && e.booking == b && e.kind == Accrual
    {
      posted := [];
      if |milestones| == 0 {
        return;
      }
      MarginalSum(milestones);
      var allocation := Allocate(total, Marginals(milestones));
      var shares := allocation.value;
      var net := NetReceivedFrom(receipts);
      var collected := CollectedHundredths(net, price);
      for i := 0 to |milestones|
        invariant State() == AccrueReached(old(State()), b, r, milestones, shares, collected, i)
        invariant forall e :: e in posted ==> e in entries && e.booking == b && e.kind == Accrual
      {
        if Reached(milestones[i], collected) {
          ghost var before := entries;
          var entry := AccrueOnceTx(b, r, shares[i], Some(milestones[i]));
          assert forall e :: e in before ==> e in entries;
          posted := posted + [entry];
        }
      }
    }

    method EnsureSnapshot(b: BookingId, price: int, terms: Option<Terms>) returns (total: Result<int, LedgerError>)
      modifies this`snapshots
      ensures b in old(snapshots) ==> total == Success(old(snapshots)[b]) && State() == old(State())
      ensures b !in old(snapshots) && terms.None? ==> total == Failure(NoRule) && State() == old(State())
      ensures b !in old(snapshots) && terms.Some? ==>
                match Snapshot(old(State()), b, price, terms.value)
                case None => total == Failure(NoMatchingSlab) && State() == old(State())
                case Some(l) => total == Success(l.snapshots[b]) && State() == l
      ensures b !in old(snapshots) && terms.Some? && total.Success? ==>
                IsCommission(price, terms.value, total.value) && snapshots == old(snapshots)[b := total.value]
      ensures b !in old(snapshots) && terms.Some? && total.Failure? ==> forall c :: !IsCommission(price, terms.value, c)
    {
      if b in snapshots {
        return Success(snapshots[b]);
      }
      if terms.None? {
        return Failure(NoRule);
      }
      var commission := ComputeCommissionPaise(price, terms.value);
      forall c
        ensures commission == Some(c) <==> IsCommission(price, terms.value, c)
      {
        CommissionIs(price, terms.value, c);
      }
      if commission.None? {
        return Failure(NoMatchingSlab);
      }
      snapshots := snapshots[b := commission.value];
      return Success(commission.value);
    }

    method AccrueForBooking(b: BookingId, trigger: AccrualTrigger, terms: Option<Terms>, milestones: seq<int>,
                            receipts: seq<Receipt>)
      returns (r: Result<seq<Entry>, LedgerError>)
      requires Ascending(milestones)
      modifies this`entries, this`snapshots
      ensures b !in bookings ==> r == Failure(NotFound) && State() == old(State())
      ensures b in bookings && bookings[b].broker.None? ==> r == Success([]) && State() == old(State())
      ensures b in bookings && bookings[b].broker.Some? ==>
                match Accrue(old(State()), b, bookings[b].price, bookings[b].broker.value, trigger, terms, milestones,
                             CollectedHundredths(NetReceived(receipts), bookings[b].price))
                case Failure(e) => r == Failure(e) && State() == old(State())
                case Success(l) => r.Success? && State() == l
      ensures r.Success? && b in bookings && bookings[b].broker.Some? && b !in old(snapshots) ==>
                terms.Some? && b in snapshots && IsCommission(bookings[b].price, terms.value, snapshots[b])
    {
      if b !in bookings {
        return Failure(NotFound);
      }
      var booking := bookings[b];
      if booking.broker.None? {
        return Success([]);
      }
      var total := EnsureSnapshot(b, booking.price, terms);
      if total.Failure? {
        return Failure(total.error);
      }
      if trigger == OnBooking {
        var entry := AccrueOnceTx(b, booking.broker.value, total.value, None);
        return Success([entry]);
      }
      var posted := AccrueOnMilestones(b, booking.broker.value, total.value, booking.price, milestones, receipts);
      return Success(posted);
    }

    // -------------------------------------------------------------- clawback

    method PostClawback(r: BrokerId, b: BookingId, kind: EntryKind, amount: int, reason: Option<string>)
      returns (posted: Result<Entry, LedgerError>)
      modifies this`entries
      ensures posted.Failure? <==> kind == ClawbackWriteoff && (reason.None? || reason.value == "")
      ensures posted.Failure? ==> posted.error == WriteoffWithoutReason && entries == old(entries)
      ensures posted.Success? ==> posted.value == Entry(r, b, kind, amount, None)
                                  && entries == old(entries) + [posted.value]
    {
      if kind == ClawbackWriteoff && (reason.None? || reason.value == "") {
        return Failure(WriteoffWithoutReason);
      }
      var entry := Entry(r, b, kind, amount, None);
      entries := entries + [entry];
      return Success(entry);
    }

    method HandleBookingCancelled(b: BookingId, r: BrokerId, policy: ClawbackPolicy) returns (posted: seq<Entry>)
      modifies this`entries
      ensures State() == Clawback(old(State()), b, r, policy)
      ensures entries == old(entries) + posted
    {
      hide Total;
      var outstanding, netPaid := Total(entries, Outstanding(b)), Total(entries, Cash(b));
      ghost var before := entries;
      posted := [];
      if outstanding != 0 {
        var reversal := PostClawback(r, b, ClawbackReversal, -outstanding, Some("reversed"));
        posted := posted + [reversal.value];
      }
      assert posted == Reversal(before, b, r) && entries == before + posted;
      if netPaid > 0 {
        if policy == WriteOff {
          var writeoff := PostClawback(r, b, ClawbackWriteoff, 0, Some("written off"));
          posted := posted + [writeoff.value];
        } else {
          var recovery := PostClawback(r, b, ClawbackRecovery, -netPaid, Some("recovered"));
          posted := posted + [recovery.value];
        }
      }
      assert posted == Reversal(before, b, r) + CashClawback(before, b, r, policy);
    }

    // -------------------------------------------------------------- payments

    method RequestPayment(r: BrokerId, amount: int) returns (id: Result<PaymentId, LedgerError>)
      modifies this`payments
      ensures r !in brokers ==> id == Failure(NotFound) && State() == old(State())
      ensures r in brokers ==>
                match Request(old(State()), r, amount)
                case Failure(e) => id == Failure(e) && State() == old(State())
                case Success(l) => id == Success(|old(payments)|) && State() == l
      ensures id.Success? <==> r in brokers && amount <= Total(entries, BrokerBalance(r))
      ensures id.Success? ==> payments == old(payments) + [PaymentRow(r, amount, Requested)] && entries == old(entries)
    {
      if r !in brokers {
        return Failure(NotFound);
      }
      var outstanding := Total(entries, BrokerBalance(r));
      if amount > outstanding {
        return Failure(ExceedsBalance);
      }
      payments := payments + [PaymentRow(r, amount, Requested)];
      return Success(|payments| - 1);
    }

    method DecidePayment(id: PaymentId, outcome: PaymentStatus) returns (problem: Option<LedgerError>)
      modifies this`payments
      ensures match Decide(old(State()), id, outcome)
              case Failure(e) => problem == Some(e) && State() == old(State())
              case Success(l) => problem == None && State() == l
    {
      if id >= |payments| {
        return Some(NotFound);
      }
      if payments[id].status != Requested {
        return Some(WrongStatus(payments[id].status));
      }
      payments := payments[id := payments[id].(status := outcome)];
      return None;
    }

    method ApprovePayment(id: PaymentId) returns (problem: Option<LedgerError>)
      modifies this`payments
      ensures problem == None <==> id < |old(payments)| && old(payments)[id].status == Requested
      ensures problem == None ==> payments == old(payments)[id := old(payments)[id].(status := Approved)]
      ensures problem != None ==> payments == old(payments)
      ensures match Decide(old(State()), id, Approved)
              case Failure(e) => problem == Some(e) && State() == old(State())
              case Success(l) => problem == None && State() == l
    {
      problem := DecidePayment(id, Approved);
    }

    method RejectPayment(id: PaymentId) returns (problem: Option<LedgerError>)
      modifies this`payments
      ensures problem == None <==> id < |old(payments)| && old(payments)[id].status == Requested
      ensures problem == None ==> payments == old(payments)[id := old(payments)[id].(status := Rejected)]
      ensures problem != None ==> payments == old(payments)
      ensures match Decide(old(State()), id, Rejected)
              case Failure(e) => problem == Some(e) && State() == old(State())
              case Success(l) => problem == None && State() == l
    {
      problem := DecidePayment(id, Rejected);
    }

    static lemma NoEntries(entries: seq<Entry>, r: BrokerId)
      ensures Seen(entries[..0], r) == []
    {
    }

    static lemma OneMoreEntry(entries: seq<Entry>, i: nat, r: BrokerId)
      requires i < |entries|
      ensures var e, before := entries[i], entries[..i];
              && Seen(entries[..i + 1], r)
                 == Seen(before, r) + (if e.broker == r && e.booking !in Seen(before, r) then [e.booking] else [])
              && (forall b :: Total(entries[..i + 1], BrokerBooking(r, b))
                              == Total(before, BrokerBooking(r, b)) + if e.broker == r && e.booking == b then e.amount else 0)
              && (e.booking !in Seen(before, r) ==> Total(before, BrokerBooking(r, e.booking)) == 0)
    {
      assert entries[..i + 1][..i] == entries[..i];
      UnmentionedTotal(entries[..i], r, entries[i].booking);
    }

    /** Per-booking totals of one broker, keyed and ordered as first seen. */
    method TotalsByBooking(r: BrokerId) returns (seen: seq<BookingId>, totals: map<BookingId, int>)
      ensures seen == Seen(entries, r)
      ensures forall b :: b in totals <==> b in seen
      ensures forall b :: b in seen ==> totals[b] == Total(entries, BrokerBooking(r, b))
    {
      hide Total, Seen;
      NoEntries(entries, r);
      seen, totals := [], map[];
      for i := 0 to |entries|
        invariant seen == Seen(entries[..i], r)
        invariant forall b :: b in totals <==> b in seen
        invariant forall b :: b in seen ==> totals[b] == Total(entries[..i], BrokerBooking(r, b))
      {
        var e := entries[i];
        OneMoreEntry(entries, i, r);
        if e.broker == r {
          var cur := if e.booking in totals then totals[e.booking] else 0;
          if e.booking !in totals {
            seen := seen + [e.booking];
          }
          totals := totals[e.booking := cur + e.amount];
        }
      }
      assert entries[..|entries|] == entries;
    }

    /** Only positive totals are kept. */
    method OutstandingBookings(r: BrokerId) returns (due: seq<Due>)
      ensures due == Dues(entries, r)
    {
      hide Total, Seen;
      var seen, totals := TotalsByBooking(r);
      due := [];
      for i := 0 to |seen|
        invariant due == Positive(seen[..i], entries, r)
      {
        assert seen[..i + 1][..i] == seen[..i];
        assert seen[i] in seen;
        if totals[seen[i]] > 0 {
          due := due + [Due(seen[i], totals[seen[i]])];
        }
      }
      assert seen[..|seen|] == seen;
    }

    static lemma TakesNothing(due: seq<Due>, amount: int)
      ensures due == [] || amount <= 0 ==> Takes(due, amount) == []
      ensures due[0..] == due && DueSum([]) == 0
    {
    }

    static lemma TakeNext(due: seq<Due>, i: nat, remaining: int, taken: seq<Due>)
      requires i < |due| && remaining > 0
      ensures var d := Due(due[i].booking, if due[i].amount < remaining then due[i].amount else remaining);
              && taken + Takes(due[i..], remaining) == taken + [d] + Takes(due[i + 1..], remaining - d.amount)
              && DueSum(taken + [d]) == DueSum(taken) + d.amount
    {
      var d := Due(due[i].booking, if due[i].amount < remaining then due[i].amount else remaining);
      assert due[i..][1..] == due[i + 1..] && [d][1..] == [];
      DueSumConcat(taken, [d]);
    }

    static method TakeOldestFirst(due: seq<Due>, amount: int) returns (allocations: seq<Due>, remaining: int)
      ensures allocations == Takes(due, amount)
      ensures remaining == amount - DueSum(allocations)
    {
      hide Takes, DueSum;
      remaining := amount;
      allocations := [];
      TakesNothing(due, amount);
      var i := 0;
      while i < |due| && remaining > 0
        invariant 0 <= i <= |due|
        invariant Takes(due, amount) == allocations + Takes(due[i..], remaining)
        invariant remaining == amount - DueSum(allocations)
      {
        var take := if due[i].amount < remaining then due[i].amount else remaining;
        TakeNext(due, i, remaining, allocations);
        allocations := allocations + [Due(due[i].booking, take)];
        remaining := remaining - take;
        i := i + 1;
      }
      TakesNothing(due[i..], remaining);
    }

    static method WithholdTds(amount: int, rule: Option<TdsRule>, allocations: seq<Due>) returns (shares: seq<int>)
      requires Sum(Grosses(allocations)) > 0
      ensures shares == TdsShares(TdsOn(amount, rule), allocations)
      ensures rule.None? || amount < rule.value.threshold ==> forall i :: 0 <= i < |allocations| ==> shares[i] == 0
      ensures rule.Some? && amount >= rule.value.threshold ==>
                exists w :: IsHalfUp(amount * rule.value.basisPoints, 10000, w)
                            && if w > 0 then shares == Allocation(w, Grosses(allocations))
                               else forall i :: 0 <= i < |allocations| ==> shares[i] == 0
    {
      var tds := 0;
      if rule.Some? && amount >= rule.value.threshold {
        tds := PercentOf(amount, rule.value.basisPoints);
      }
      shares := seq(|allocations|, i => 0);
      if tds > 0 {
        var split := Allocate(tds, Grosses(allocations));
        shares := split.value;
      }
    }

    method PostPairs(r: BrokerId, allocations: seq<Due>, shares: seq<int>)
      requires |shares| == |allocations|
      modifies this`entries
      ensures entries == old(entries) + Postings(r, allocations, shares)
    {
      for i := 0 to |allocations|
        invariant entries == old(entries) + Postings(r, allocations[..i], shares[..i])
      {
        var gross, tdsShare := allocations[i].amount, shares[i];
        assert allocations[..i + 1][..i] == allocations[..i] && shares[..i + 1][..i] == shares[..i];
        entries := entries + [Entry(r, allocations[i].booking, Payment, -(gross - tdsShare), None)];
        if tdsShare > 0 {
          entries := entries + [Entry(r, allocations[i].booking, TdsWithheld, -tdsShare, None)];
        }
      }
      assert allocations[..|allocations|] == allocations && shares[..|allocations|] == shares;
    }

    method PayPayment(id: PaymentId, rule: Option<TdsRule>) returns (problem: Option<LedgerError>)
      modifies this`entries, this`payments
      ensures match Pay(old(State()), id, rule)
              case Failure(e) => problem == Some(e) && State() == old(State())
              case Success(l) => problem == None && State() == l
    {
      hide Takes, Dues, Postings, TdsShares, TdsOn;
      if id >= |payments| {
        return Some(NotFound);
      }
      var payment := payments[id];
      if payment.status != Approved {
        return Some(WrongStatus(payment.status));
      }
      var due := OutstandingBookings(payment.broker);
      var allocations, remaining := TakeOldestFirst(due, payment.amount);
      if |allocations| == 0 {
        return Some(NothingOutstanding);
      }
      if remaining > 0 {
        return Some(ExceedsOutstanding);
      }
      TakenSumPositive(entries, payment.broker, payment.amount);
      var shares := WithholdTds(payment.amount, rule, allocations);
      PostPairs(payment.broker, allocations, shares);
      payments := payments[id := payment.(status := Paid)];
      return None;
    }
  }
}
