/**
 * Milestone accrual is a one-way ratchet: however collections rise and fall, whatever else happens
 * to the ledger in between, a booking has accrued exactly the shares of the milestones up to the
 * highest percentage ever seen.
 */
module CommissionRatchet {
  import opened Common
  import opened Money
  import opened CommissionRules
  import opened CommissionLedger
  import opened CommissionRuns

  // ---------------------------------------------------------------- the accrual endpoint is a run

  lemma {:induction false} RunConcat(bookings: map<BookingId, Booking>, l: Ledger, s: seq<Action>, t: seq<Action>)
    ensures Run(bookings, l, s + t) == Run(bookings, Run(bookings, l, s), t)
  {
    if t == [] {
      assert s + t == s;
    } else {
      assert (s + t)[..|s + t| - 1] == s + t[..|t| - 1];
      RunConcat(bookings, l, s, t[..|t| - 1]);
    }
  }

  lemma RunOne(bookings: map<BookingId, Booking>, l: Ledger, a: Action)
    ensures Run(bookings, l, [a]) == Apply(bookings, l, a)
  {
    assert [a][..0] == [];
  }

  /** The transactions of one milestone call, up to milestone n. */
  function ReachedActions(b: BookingId, milestones: seq<int>, hundredths: int, n: nat): seq<Action>
    requires n <= |milestones|
  {
    if n == 0 then []
    else
      ReachedActions(b, milestones, hundredths, n - 1)
      + if Reached(milestones[n - 1], hundredths) then [AccrueMilestone(b, milestones, n - 1)] else []
  }

  lemma {:induction false} ReachedActionsAre(b: BookingId, milestones: seq<int>, hundredths: int, n: nat, a: Action)
    requires n <= |milestones|
    ensures a in ReachedActions(b, milestones, hundredths, n) <==>
              exists i :: 0 <= i < n && Reached(milestones[i], hundredths) && a == AccrueMilestone(b, milestones, i)
  {
    if n > 0 {
      ReachedActionsAre(b, milestones, hundredths, n - 1, a);
    }
  }

  lemma {:induction false} ReachedIsRun(bookings: map<BookingId, Booking>, l: Ledger, b: BookingId, r: BrokerId,
                                        milestones: seq<int>, hundredths: int, n: nat)
    requires b in bookings && bookings[b].broker == Some(r) && b in l.snapshots
    requires Ascending(milestones) && n <= |milestones|
    ensures var after := AccrueReached(l, b, r, milestones, MilestoneShares(l.snapshots[b], milestones), hundredths, n);
            && Run(bookings, l, ReachedActions(b, milestones, hundredths, n)) == after
            && after.snapshots == l.snapshots
  {
    hide AccrueOnce, MilestoneShares, Ascending;
    if n > 0 {
      ReachedIsRun(bookings, l, b, r, milestones, hundredths, n - 1);
      var before, a := ReachedActions(b, milestones, hundredths, n - 1), AccrueMilestone(b, milestones, n - 1);
      RunConcat(bookings, l, before, [a]);
      RunOne(bookings, Run(bookings, l, before), a);
      assert before + [] == before;
      ApplyMilestone(bookings, Run(bookings, l, before), b, r, milestones, n - 1);
    }
  }

  lemma ApplyMilestone(bookings: map<BookingId, Booking>, l: Ledger, b: BookingId, r: BrokerId, milestones: seq<int>, i: nat)
    requires b in bookings && bookings[b].broker == Some(r) && b in l.snapshots
    requires Ascending(milestones) && i < |milestones|
    ensures var after := Apply(bookings, l, AccrueMilestone(b, milestones, i));
            && after == AccrueOnce(l, b, r, MilestoneShares(l.snapshots[b], milestones)[i], Some(milestones[i]))
            && after.snapshots == l.snapshots
  {
  }

  function EndpointActions(b: BookingId, trigger: AccrualTrigger, terms: Option<Terms>, milestones: seq<int>,
                           hundredths: int): seq<Action>
  {
    (if terms.Some? then [TakeSnapshot(b, terms.value)] else [])
    + if trigger == OnBooking then [AccrueTotal(b)] else ReachedActions(b, milestones, hundredths, |milestones|)
  }

  /** A successful call of the accrual endpoint is a run of its transactions, so every run result covers it. */
  lemma EndpointIsRun(bookings: map<BookingId, Booking>, l: Ledger, b: BookingId, r: BrokerId,
                      trigger: AccrualTrigger, terms: Option<Terms>, milestones: seq<int>, hundredths: int)
    requires b in bookings && bookings[b].broker == Some(r) && Ascending(milestones)
    requires Accrue(l, b, bookings[b].price, r, trigger, terms, milestones, hundredths).Success?
    ensures Run(bookings, l, EndpointActions(b, trigger, terms, milestones, hundredths))
         == Accrue(l, b, bookings[b].price, r, trigger, terms, milestones, hundredths).value
  {
    hide ComputeCommissionPaise, AccrueReached, ReachedActions, MilestoneShares, HasAccrual;
    var first := if terms.Some? then [TakeSnapshot(b, terms.value)] else [];
    var rest := if trigger == OnBooking then [AccrueTotal(b)]
                else ReachedActions(b, milestones, hundredths, |milestones|);
    var snapped := Run(bookings, l, first);
    RunConcat(bookings, l, first, rest);
    if terms.Some? {
      RunOne(bookings, l, first[0]);
    }
    assert b in snapped.snapshots;
    if trigger == OnBooking {
      RunOne(bookings, snapped, rest[0]);
    } else {
      ReachedIsRun(bookings, snapped, b, r, milestones, hundredths, |milestones|);
    }
  }

  // ---------------------------------------------------------------- calling it again

  lemma PostedStays(l: Ledger, b: BookingId, r: BrokerId, amount: int, m: Option<int>, other: Option<int>)
    ensures var after := AccrueOnce(l, b, r, amount, m);
            && HasAccrual(after.entries, b, m)
            && (HasAccrual(l.entries, b, other) ==> HasAccrual(after.entries, b, other))
            && after.snapshots == l.snapshots
  {
    var after, n := AccrueOnce(l, b, r, amount, m), |l.entries|;
    if HasAccrual(l.entries, b, other) {
      var i :| 0 <= i < n && l.entries[i].booking == b && l.entries[i].kind == Accrual && l.entries[i].milestone == other;
      assert after.entries[i] == l.entries[i];
    }
    if after != l {
      assert after.entries[n] == Entry(r, b, Accrual, amount, m);
    }
  }

  lemma {:induction false} ReachedArePosted(l: Ledger, b: BookingId, r: BrokerId, milestones: seq<int>, shares: seq<int>,
                                            hundredths: int, n: nat)
    requires |shares| == |milestones| && n <= |milestones|
    ensures var after := AccrueReached(l, b, r, milestones, shares, hundredths, n);
            && after.snapshots == l.snapshots
            && forall i :: 0 <= i < n && Reached(milestones[i], hundredths) ==>
                 HasAccrual(after.entries, b, Some(milestones[i]))
  {
    hide AccrueOnce, HasAccrual;
    if n > 0 {
      ReachedArePosted(l, b, r, milestones, shares, hundredths, n - 1);
      var before := AccrueReached(l, b, r, milestones, shares, hundredths, n - 1);
      if Reached(milestones[n - 1], hundredths) {
        forall i | 0 <= i < n && Reached(milestones[i], hundredths)
          ensures HasAccrual(AccrueReached(l, b, r, milestones, shares, hundredths, n).entries, b, Some(milestones[i]))
        {
          PostedStays(before, b, r, shares[n - 1], Some(milestones[n - 1]), Some(milestones[i]));
        }
        PostedStays(before, b, r, shares[n - 1], Some(milestones[n - 1]), None);
      }
    }
  }

  lemma {:induction false} NothingNew(l: Ledger, b: BookingId, r: BrokerId, milestones: seq<int>, shares: seq<int>,
                                      hundredths: int, n: nat)
    requires |shares| == |milestones| && n <= |milestones|
    requires forall i :: 0 <= i < n && Reached(milestones[i], hundredths) ==>
               HasAccrual(l.entries, b, Some(milestones[i]))
    ensures AccrueReached(l, b, r, milestones, shares, hundredths, n) == l
  {
    if n > 0 {
      NothingNew(l, b, r, milestones, shares, hundredths, n - 1);
    }
  }

  /** The endpoint is safe to call repeatedly: with no more collected, whatever the terms now say, nothing changes. */
  lemma AccrueAgain(l: Ledger, b: BookingId, price: int, r: BrokerId, trigger: AccrualTrigger, terms: Option<Terms>,
                    milestones: seq<int>, hundredths: int, newTerms: Option<Terms>, newPrice: int, newHundredths: int)
    requires Ascending(milestones) && newHundredths <= hundredths
    requires Accrue(l, b, price, r, trigger, terms, milestones, hundredths).Success?
    ensures var after := Accrue(l, b, price, r, trigger, terms, milestones, hundredths).value;
            Accrue(after, b, newPrice, r, trigger, newTerms, milestones, newHundredths) == Success(after)
  {
    hide HasAccrual, MilestoneShares;
    var after := Accrue(l, b, price, r, trigger, terms, milestones, hundredths).value;
    var snapped := if b in l.snapshots then l else Snapshot(l, b, price, terms.value).value;
    var total := snapped.snapshots[b];
    if trigger == OnBooking {
      PostedStays(snapped, b, r, total, None, None);
    } else {
      var shares := MilestoneShares(total, milestones);
      ReachedArePosted(snapped, b, r, milestones, shares, hundredths, |milestones|);
      NothingNew(after, b, r, milestones, shares, newHundredths, |milestones|);
    }
  }

  // ---------------------------------------------------------------- which actions touch a booking's accruals

  ghost predicate NoAccrual(entries: seq<Entry>, b: BookingId) {
    forall e :: e in entries ==> !(e.booking == b && e.kind == Accrual)
  }

  lemma {:induction false} NoAccrualAddsNothing(entries: seq<Entry>, more: seq<Entry>, b: BookingId)
    requires NoAccrual(more, b)
    ensures Total(entries + more, Accrued(b)) == Total(entries, Accrued(b))
    ensures forall m :: HasAccrual(entries + more, b, m) <==> HasAccrual(entries, b, m)
  {
    NoAccrualTotal(more, b);
    TotalConcat(entries, more, Accrued(b));
    forall m
      ensures HasAccrual(entries + more, b, m) <==> HasAccrual(entries, b, m)
    {
      if HasAccrual(entries, b, m) {
        var i :| 0 <= i < |entries| && entries[i].booking == b && entries[i].kind == Accrual && entries[i].milestone == m;
        assert (entries + more)[i] == entries[i];
      }
      if HasAccrual(entries + more, b, m) {
        var i :| 0 <= i < |entries + more| && (entries + more)[i].booking == b && (entries + more)[i].kind == Accrual
                 && (entries + more)[i].milestone == m;
        assert i >= |entries| ==> more[i - |entries|] in more;
      }
    }
  }

  lemma {:induction false} NoAccrualTotal(entries: seq<Entry>, b: BookingId)
    requires NoAccrual(entries, b)
    ensures Total(entries, Accrued(b)) == 0
  {
    if entries != [] {
      assert entries[|entries| - 1] in entries;
      NoAccrualTotal(entries[..|entries| - 1], b);
    }
  }

  lemma {:induction false} PostingsAreNoAccruals(r: BrokerId, takes: seq<Due>, shares: seq<int>, b: BookingId)
    requires |shares| == |takes|
    ensures NoAccrual(Postings(r, takes, shares), b)
  {
    if takes != [] {
      PostingsAreNoAccruals(r, takes[..|takes| - 1], shares[..|takes| - 1], b);
    }
  }

  /** This action accrues on booking b. */
  predicate AccruesOn(a: Action, b: BookingId) {
    (a.AccrueTotal? && a.booking == b) || (a.AccrueMilestone? && a.booking == b)
  }

  /** Nothing about booking b's accruals changed, and its frozen total did not either. */
  ghost predicate SameAccruals(l: Ledger, after: Ledger, b: BookingId) {
    && (b in l.snapshots ==> b in after.snapshots && after.snapshots[b] == l.snapshots[b])
    && Total(after.entries, Accrued(b)) == Total(l.entries, Accrued(b))
    && forall m :: HasAccrual(after.entries, b, m) <==> HasAccrual(l.entries, b, m)
  }

  lemma AppendingSameAccruals(l: Ledger, after: Ledger, more: seq<Entry>, b: BookingId)
    requires after.snapshots == l.snapshots
    requires after.entries == l.entries + more && NoAccrual(more, b)
    ensures SameAccruals(l, after, b)
  {
    hide NoAccrual, Total, HasAccrual;
    NoAccrualAddsNothing(l.entries, more, b);
  }

  lemma PaymentLeavesAccruals(l: Ledger, id: PaymentId, rule: Option<TdsRule>, b: BookingId)
    requires PayProblem(l, id) == None
    ensures Pay(l, id, rule).Success? && SameAccruals(l, Pay(l, id, rule).value, b)
  {
    hide NoAccrual, Postings, Takes, Dues, TdsShares, TdsOn, SameAccruals;
    var p := l.payments[id];
    var takes := Takes(Dues(l.entries, p.broker), p.amount);
    TakenSumPositive(l.entries, p.broker, p.amount);
    PostingsAreNoAccruals(p.broker, takes, TdsShares(TdsOn(p.amount, rule), takes), b);
    AppendingSameAccruals(l, Pay(l, id, rule).value, PayEntries(l, id, rule), b);
  }

  lemma CancellationLeavesAccruals(l: Ledger, c: BookingId, r: BrokerId, policy: ClawbackPolicy, b: BookingId)
    ensures SameAccruals(l, Clawback(l, c, r, policy), b)
  {
    hide Total, SameAccruals;
    var more := Reversal(l.entries, c, r) + CashClawback(l.entries, c, r, policy);
    AppendingSameAccruals(l, Clawback(l, c, r, policy), more, b);
  }

  lemma ForeignAccrualLeavesAccruals(l: Ledger, c: BookingId, r: BrokerId, amount: int, m: Option<int>, b: BookingId)
    requires b != c
    ensures SameAccruals(l, AccrueOnce(l, c, r, amount, m), b)
  {
    hide HasAccrual, Total;
    var after := AccrueOnce(l, c, r, amount, m);
    if after != l {
      AppendingSameAccruals(l, after, [Entry(r, c, Accrual, amount, m)], b);
    }
  }

  /** Nothing else does: snapshots are frozen, and payments, cancellations and other bookings add no accrual. */
  lemma OthersLeaveAccruals(bookings: map<BookingId, Booking>, l: Ledger, a: Action, b: BookingId)
    requires !AccruesOn(a, b)
    ensures SameAccruals(l, Apply(bookings, l, a), b)
  {
    hide Total, HasAccrual, AccrueOnce, Clawback, Pay, PayProblem, MilestoneShares;
    match a
    case MakePay(id, rule) =>
      PayGoesThrough(l, id, rule);
      if Pay(l, id, rule).Success? {
        PaymentLeavesAccruals(l, id, rule, b);
      }
    case Cancel(c, policy) =>
      if c in bookings && bookings[c].broker.Some? {
        CancellationLeavesAccruals(l, c, bookings[c].broker.value, policy, b);
      }
    case AccrueTotal(c) =>
      if c in bookings && bookings[c].broker.Some? && c in l.snapshots {
        ForeignAccrualLeavesAccruals(l, c, bookings[c].broker.value, l.snapshots[c], None, b);
      }
    case AccrueMilestone(c, milestones, i) =>
      if c in bookings && bookings[c].broker.Some? && c in l.snapshots && Ascending(milestones) && i < |milestones| {
        ForeignAccrualLeavesAccruals(l, c, bookings[c].broker.value, MilestoneShares(l.snapshots[c], milestones)[i],
                                     Some(milestones[i]), b);
      }
    case _ =>
  }

  // ---------------------------------------------------------------- accrual on booking

  /**
   * On booking, the whole frozen total accrues, to the booking's broker and in one entry: the commission the
   * terms give, if nothing was frozen before, and what was frozen, if something was.
   */
  lemma OnBookingAccruesCommission(l: Ledger, b: BookingId, price: int, r: BrokerId, terms: Option<Terms>,
                                   milestones: seq<int>, hundredths: int)
    requires Ascending(milestones) && NoAccrual(l.entries, b)
    requires Accrue(l, b, price, r, OnBooking, terms, milestones, hundredths).Success?
    ensures var after := Accrue(l, b, price, r, OnBooking, terms, milestones, hundredths).value;
            && b in after.snapshots
            && (if b in l.snapshots then after.snapshots[b] == l.snapshots[b]
                else terms.Some? && IsCommission(price, terms.value, after.snapshots[b]))
            && Total(after.entries, Accrued(b)) == after.snapshots[b]
            && after.payments == l.payments && l.entries <= after.entries && |after.entries| == |l.entries| + 1
            && after.entries[|l.entries|] == Entry(r, b, Accrual, after.snapshots[b], None)
  {
    hide IsCommission, ComputeCommissionPaise;
    if terms.Some? {
      SnapshotIsCommission(l, b, price, terms.value);
    }
    NoAccrualTotal(l.entries, b);
    var after := Accrue(l, b, price, r, OnBooking, terms, milestones, hundredths).value;
    TotalAppend(l.entries, Entry(r, b, Accrual, after.snapshots[b], None), Accrued(b));
  }

  /** An accrual call fails only while nothing is frozen, for want of a rule or of a slab that holds the price. */
  lemma AccrueFailsIff(l: Ledger, b: BookingId, price: int, r: BrokerId, trigger: AccrualTrigger, terms: Option<Terms>,
                       milestones: seq<int>, hundredths: int)
    requires Ascending(milestones)
    ensures var result := Accrue(l, b, price, r, trigger, terms, milestones, hundredths);
            && (result.Failure? <==> b !in l.snapshots && (terms.None? || forall c :: !IsCommission(price, terms.value, c)))
            && (result.Failure? ==> result.error == if terms.None? then NoRule else NoMatchingSlab)
  {
    hide IsCommission, ComputeCommissionPaise, AccrueReached, AccrueOnce, MilestoneShares;
    if terms.Some? {
      SnapshotIsCommission(l, b, price, terms.value);
    }
  }

  /** A milestone call freezes the same total. */
  lemma CallFreezesCommission(l: Ledger, b: BookingId, price: int, r: BrokerId, terms: Option<Terms>,
                              milestones: seq<int>, hundredths: int)
    requires Ascending(milestones)
    requires Accrue(l, b, price, r, OnCollectionMilestone, terms, milestones, hundredths).Success?
    ensures var after := Accrue(l, b, price, r, OnCollectionMilestone, terms, milestones, hundredths).value;
            && b in after.snapshots
            && if b in l.snapshots then after.snapshots[b] == l.snapshots[b]
               else terms.Some? && IsCommission(price, terms.value, after.snapshots[b])
  {
    hide IsCommission, ComputeCommissionPaise, AccrueOnce, HasAccrual;
    if terms.Some? {
      SnapshotIsCommission(l, b, price, terms.value);
    }
    var snapped := if b in l.snapshots then l else Snapshot(l, b, price, terms.value).value;
    ReachedArePosted(snapped, b, r, milestones, MilestoneShares(snapped.snapshots[b], milestones), hundredths, |milestones|);
  }

  // ---------------------------------------------------------------- the ratchet

  /** The shares of the milestones that have been posted. */
  ghost function PostedSum(entries: seq<Entry>, b: BookingId, milestones: seq<int>, shares: seq<int>, n: nat): int
    requires |shares| == |milestones| && n <= |milestones|
  {
    if n == 0 then 0
    else
      PostedSum(entries, b, milestones, shares, n - 1)
      + if HasAccrual(entries, b, Some(milestones[n - 1])) then shares[n - 1] else 0
  }

  lemma {:induction false} PostedSumSame(s: seq<Entry>, t: seq<Entry>, b: BookingId, milestones: seq<int>,
                                         shares: seq<int>, n: nat)
    requires |shares| == |milestones| && n <= |milestones|
    requires forall i :: 0 <= i < n ==>
               (HasAccrual(s, b, Some(milestones[i])) <==> HasAccrual(t, b, Some(milestones[i])))
    ensures PostedSum(s, b, milestones, shares, n) == PostedSum(t, b, milestones, shares, n)
  {
    if n > 0 {
      PostedSumSame(s, t, b, milestones, shares, n - 1);
    }
  }

  lemma {:induction false} PostedSumOneMore(s: seq<Entry>, t: seq<Entry>, b: BookingId, milestones: seq<int>,
                                            shares: seq<int>, k: nat, n: nat)
    requires |shares| == |milestones| && k < n <= |milestones|
    requires forall i :: 0 <= i < n && i != k ==>
               (HasAccrual(s, b, Some(milestones[i])) <==> HasAccrual(t, b, Some(milestones[i])))
    requires !HasAccrual(s, b, Some(milestones[k])) && HasAccrual(t, b, Some(milestones[k]))
    ensures PostedSum(t, b, milestones, shares, n) == PostedSum(s, b, milestones, shares, n) + shares[k]
  {
    if k == n - 1 {
      PostedSumSame(s, t, b, milestones, shares, n - 1);
    } else {
      PostedSumOneMore(s, t, b, milestones, shares, k, n - 1);
    }
  }

  lemma {:induction false} AscendingDistinct(milestones: seq<int>, i: nat, j: nat)
    requires Ascending(milestones) && i < j < |milestones|
    ensures milestones[i] < milestones[j]
    decreases j - i
  {
    if i + 1 < j {
      AscendingDistinct(milestones, i, j - 1);
    }
  }

  /** Booking b accrues at these milestones only: its trigger and its rule's list do not change. */
  ghost predicate MilestonesOnly(actions: seq<Action>, b: BookingId, milestones: seq<int>) {
    forall a :: a in actions && AccruesOn(a, b) ==>
      exists i :: 0 <= i < |milestones| && a == AccrueMilestone(b, milestones, i)
  }

  ghost predicate Ratcheted(l: Ledger, b: BookingId, total: int, milestones: seq<int>, done: seq<Action>)
    requires Ascending(milestones)
  {
    && b in l.snapshots && l.snapshots[b] == total
    && Total(l.entries, Accrued(b))
       == PostedSum(l.entries, b, milestones, MilestoneShares(total, milestones), |milestones|)
    && forall i :: 0 <= i < |milestones| ==>
         (HasAccrual(l.entries, b, Some(milestones[i])) <==> AccrueMilestone(b, milestones, i) in done)
  }

  lemma AccrualRatchets(bookings: map<BookingId, Booking>, l: Ledger, b: BookingId, total: int, milestones: seq<int>,
                        k: nat, done: seq<Action>)
    requires b in bookings && bookings[b].broker.Some?
    requires Ascending(milestones) && k < |milestones| && Ratcheted(l, b, total, milestones, done)
    ensures var a := AccrueMilestone(b, milestones, k);
            Ratcheted(Apply(bookings, l, a), b, total, milestones, done + [a])
  {
    hide MilestoneShares, Ascending, HasAccrual, Total, PostedSum;
    var a, shares := AccrueMilestone(b, milestones, k), MilestoneShares(total, milestones);
    if !HasAccrual(l.entries, b, Some(milestones[k])) {
      var e := Entry(bookings[b].broker.value, b, Accrual, shares[k], Some(milestones[k]));
      assert Apply(bookings, l, a).entries == l.entries + [e];
      OneMorePosted(l.entries, e, b, milestones, shares, k);
    }
  }

  /** Posting milestone k adds its share to what is accrued and to what is posted, and changes no other milestone. */
  lemma OneMorePosted(entries: seq<Entry>, e: Entry, b: BookingId, milestones: seq<int>, shares: seq<int>, k: nat)
    requires Ascending(milestones) && |shares| == |milestones| && k < |milestones|
    requires e.booking == b && e.kind == Accrual && e.amount == shares[k] && e.milestone == Some(milestones[k])
    requires !HasAccrual(entries, b, Some(milestones[k]))
    ensures Total(entries + [e], Accrued(b)) == Total(entries, Accrued(b)) + shares[k]
    ensures PostedSum(entries + [e], b, milestones, shares, |milestones|)
         == PostedSum(entries, b, milestones, shares, |milestones|) + shares[k]
    ensures HasAccrual(entries + [e], b, Some(milestones[k]))
    ensures forall i :: 0 <= i < |milestones| && i != k ==>
              (HasAccrual(entries + [e], b, Some(milestones[i])) <==> HasAccrual(entries, b, Some(milestones[i])))
  {
    hide Total, PostedSum, Ascending;
    TotalAppend(entries, e, Accrued(b));
    assert (entries + [e])[|entries|] == e;
    forall i | 0 <= i < |milestones| && i != k
      ensures HasAccrual(entries + [e], b, Some(milestones[i])) <==> HasAccrual(entries, b, Some(milestones[i]))
    {
      if i < k {
        AscendingDistinct(milestones, i, k);
      } else {
        AscendingDistinct(milestones, k, i);
      }
      AppendedAccrual(entries, e, b, Some(milestones[i]));
    }
    PostedSumOneMore(entries, entries + [e], b, milestones, shares, k, |milestones|);
  }

  lemma AppendedAccrual(entries: seq<Entry>, e: Entry, b: BookingId, m: Option<int>)
    requires e.milestone != m
    ensures HasAccrual(entries + [e], b, m) <==> HasAccrual(entries, b, m)
  {
    assert forall i :: 0 <= i < |entries| ==> (entries + [e])[i] == entries[i];
  }

  lemma {:induction false} RatchetedRun(bookings: map<BookingId, Booking>, l: Ledger, done: seq<Action>,
                                        actions: seq<Action>, b: BookingId, total: int, milestones: seq<int>)
    requires b in bookings && bookings[b].broker.Some? && Ascending(milestones)
    requires Ratcheted(l, b, total, milestones, done) && MilestonesOnly(actions, b, milestones)
    ensures Ratcheted(Run(bookings, l, actions), b, total, milestones, done + actions)
  {
    hide Apply, HasAccrual, Total, MilestoneShares;
    if actions == [] {
      assert done + actions == done;
    } else {
      var n := |actions| - 1;
      var front, a := actions[..n], actions[n];
      assert done + actions == (done + front) + [a];
      RatchetedRun(bookings, l, done, front, b, total, milestones);
      var before := Run(bookings, l, front);
      if AccruesOn(a, b) {
        var k :| 0 <= k < |milestones| && a == AccrueMilestone(b, milestones, k);
        AccrualRatchets(bookings, before, b, total, milestones, k, done + front);
      } else {
        OthersLeaveAccruals(bookings, before, a, b);
        PostedSumSame(before.entries, Apply(bookings, before, a).entries, b, milestones,
                      MilestoneShares(total, milestones), |milestones|);
      }
    }
  }

  lemma NotYetRatcheted(l: Ledger, b: BookingId, milestones: seq<int>, done: seq<Action>)
    requires Ascending(milestones) && b in l.snapshots && NoAccrual(l.entries, b)
    requires forall i :: 0 <= i < |milestones| ==> AccrueMilestone(b, milestones, i) !in done
    ensures Ratcheted(l, b, l.snapshots[b], milestones, done)
  {
    NoAccrualTotal(l.entries, b);
    NonePosted(l.entries, b, milestones, MilestoneShares(l.snapshots[b], milestones), |milestones|);
  }

  /** Posted milestones are exactly the attempted ones, each once, each for its own share. */
  lemma MilestoneRatchet(bookings: map<BookingId, Booking>, start: Ledger, actions: seq<Action>, b: BookingId,
                         total: int, milestones: seq<int>)
    requires b in bookings && bookings[b].broker.Some? && Ascending(milestones)
    requires b in start.snapshots && start.snapshots[b] == total && NoAccrual(start.entries, b)
    requires MilestonesOnly(actions, b, milestones)
    ensures Ratcheted(Run(bookings, start, actions), b, total, milestones, actions)
  {
    NotYetRatcheted(start, b, milestones, []);
    RatchetedRun(bookings, start, [], actions, b, total, milestones);
    assert [] + actions == actions;
  }

  lemma {:induction false} NonePosted(entries: seq<Entry>, b: BookingId, milestones: seq<int>, shares: seq<int>, n: nat)
    requires |shares| == |milestones| && n <= |milestones| && NoAccrual(entries, b)
    ensures PostedSum(entries, b, milestones, shares, n) == 0
    ensures forall m :: !HasAccrual(entries, b, m)
  {
    if n > 0 {
      NonePosted(entries, b, milestones, shares, n - 1);
    } else {
      assert forall i :: 0 <= i < |entries| ==> entries[i] in entries;
    }
  }

  // ---------------------------------------------------------------- in terms of the highest percentage seen

  function Highest(readings: seq<int>): int {
    if readings == [] then -1
    else
      var h := Highest(readings[..|readings| - 1]);
      if h < readings[|readings| - 1] then readings[|readings| - 1] else h
  }

  lemma {:induction false} ReachedByHighest(readings: seq<int>, milestone: int)
    requires milestone >= 1
    ensures Reached(milestone, Highest(readings)) <==> exists k :: k in readings && Reached(milestone, k)
  {
    if readings != [] {
      var n := |readings| - 1;
      ReachedByHighest(readings[..n], milestone);
      assert readings == readings[..n] + [readings[n]];
    }
  }

  /** The shares of the milestones up to a percentage. */
  function SharesUpTo(milestones: seq<int>, shares: seq<int>, hundredths: int, n: nat): int
    requires |shares| == |milestones| && n <= |milestones|
  {
    if n == 0 then 0
    else
      SharesUpTo(milestones, shares, hundredths, n - 1)
      + if Reached(milestones[n - 1], hundredths) then shares[n - 1] else 0
  }

  /** If the attempted milestones are those some reading reached, the accrued total is told by the highest reading. */
  lemma RatchetedUpTo(l: Ledger, b: BookingId, milestones: seq<int>, done: seq<Action>, readings: seq<int>)
    requires Ascending(milestones) && b in l.snapshots
    requires Ratcheted(l, b, l.snapshots[b], milestones, done)
    requires forall i :: 0 <= i < |milestones| ==>
               (AccrueMilestone(b, milestones, i) in done <==> exists k :: k in readings && Reached(milestones[i], k))
    ensures Total(l.entries, Accrued(b))
         == SharesUpTo(milestones, MilestoneShares(l.snapshots[b], milestones), Highest(readings), |milestones|)
  {
    hide Total, HasAccrual;
    forall i | 0 <= i < |milestones|
      ensures HasAccrual(l.entries, b, Some(milestones[i])) <==> Reached(milestones[i], Highest(readings))
    {
      ReachedByHighest(readings, milestones[i]);
    }
    PostedIsUpTo(l.entries, b, milestones, MilestoneShares(l.snapshots[b], milestones), Highest(readings), |milestones|);
  }

  lemma {:induction false} PostedIsUpTo(entries: seq<Entry>, b: BookingId, milestones: seq<int>, shares: seq<int>,
                                        h: int, n: nat)
    requires |shares| == |milestones| && n <= |milestones|
    requires forall i :: 0 <= i < n ==> (HasAccrual(entries, b, Some(milestones[i])) <==> Reached(milestones[i], h))
    ensures PostedSum(entries, b, milestones, shares, n) == SharesUpTo(milestones, shares, h, n)
  {
    if n > 0 {
      PostedIsUpTo(entries, b, milestones, shares, h, n - 1);
    }
  }

  /** It never shrinks, never exceeds the frozen total, and reaches it with the last milestone. */
  lemma RatchetBounds(total: int, milestones: seq<int>, low: int, high: int)
    requires Ascending(milestones) && milestones != [] && total >= 0 && low <= high
    ensures var shares, n := MilestoneShares(total, milestones), |milestones|;
            && 0 <= SharesUpTo(milestones, shares, low, n) <= SharesUpTo(milestones, shares, high, n) <= total
            && (Reached(milestones[n - 1], high) ==> SharesUpTo(milestones, shares, high, n) == total)
  {
    var shares, n := MilestoneShares(total, milestones), |milestones|;
    MilestoneSharesPartition(total, milestones);
    UpToMonotone(milestones, shares, low, high, n);
    assert shares[..n] == shares;
    if Reached(milestones[n - 1], high) {
      forall i | 0 <= i < n
        ensures Reached(milestones[i], high)
      {
        if i < n - 1 {
          AscendingDistinct(milestones, i, n - 1);
        }
      }
      UpToAll(milestones, shares, high, n);
    }
  }

  lemma {:induction false} UpToMonotone(milestones: seq<int>, shares: seq<int>, low: int, high: int, n: nat)
    requires |shares| == |milestones| && n <= |milestones| && NonNegative(shares) && low <= high
    ensures 0 <= SharesUpTo(milestones, shares, low, n) <= SharesUpTo(milestones, shares, high, n) <= Sum(shares[..n])
  {
    if n > 0 {
      UpToMonotone(milestones, shares, low, high, n - 1);
      assert shares[..n][..n - 1] == shares[..n - 1];
    }
  }

  lemma {:induction false} UpToAll(milestones: seq<int>, shares: seq<int>, high: int, n: nat)
    requires |shares| == |milestones| && n <= |milestones|
    requires forall i :: 0 <= i < n ==> Reached(milestones[i], high)
    ensures SharesUpTo(milestones, shares, high, n) == Sum(shares[..n])
  {
    if n > 0 {
      UpToAll(milestones, shares, high, n - 1);
      assert shares[..n][..n - 1] == shares[..n - 1];
    }
  }

  // ---------------------------------------------------------------- histories of accrual calls

  /** A call of the accrual endpoint for the booking in question, or anything else that can happen to the ledger. */
  datatype Step = Call(terms: Option<Terms>, receipts: seq<Receipt>) | Other(action: Action)

  function Reading(price: int, receipts: seq<Receipt>): int {
    CollectedHundredths(NetReceived(receipts), price)
  }

  function CallResult(booking: Booking, l: Ledger, b: BookingId, milestones: seq<int>, terms: Option<Terms>,
                      receipts: seq<Receipt>): Result<Ledger, LedgerError>
    requires booking.broker.Some? && Ascending(milestones)
  {
    Accrue(l, b, booking.price, booking.broker.value, OnCollectionMilestone, terms, milestones,
           Reading(booking.price, receipts))
  }

  function AfterStep(bookings: map<BookingId, Booking>, l: Ledger, b: BookingId, milestones: seq<int>, step: Step): Ledger
    requires b in bookings && bookings[b].broker.Some? && Ascending(milestones)
  {
    match step
    case Call(terms, receipts) => OrElse(CallResult(bookings[b], l, b, milestones, terms, receipts), l)
    case Other(a) => Apply(bookings, l, a)
  }

  function History(bookings: map<BookingId, Booking>, l: Ledger, b: BookingId, milestones: seq<int>, steps: seq<Step>): Ledger
    requires b in bookings && bookings[b].broker.Some? && Ascending(milestones)
  {
    if steps == [] then l
    else
      AfterStep(bookings, History(bookings, l, b, milestones, steps[..|steps| - 1]), b, milestones, steps[|steps| - 1])
  }

  /** The percentages the successful calls read; a call that fails does so before it reads one. */
  function Readings(bookings: map<BookingId, Booking>, l: Ledger, b: BookingId, milestones: seq<int>, steps: seq<Step>): seq<int>
    requires b in bookings && bookings[b].broker.Some? && Ascending(milestones)
  {
    if steps == [] then []
    else
      var n := |steps| - 1;
      var before := History(bookings, l, b, milestones, steps[..n]);
      Readings(bookings, l, b, milestones, steps[..n])
      + if steps[n].Call? && CallResult(bookings[b], before, b, milestones, steps[n].terms, steps[n].receipts).Success?
        then [Reading(bookings[b].price, steps[n].receipts)] else []
  }

  /** The transactions of one step. */
  function StepActions(booking: Booking, before: Ledger, b: BookingId, milestones: seq<int>, step: Step): seq<Action>
    requires booking.broker.Some? && Ascending(milestones)
  {
    match step
    case Call(terms, receipts) =>
      if CallResult(booking, before, b, milestones, terms, receipts).Success?
      then EndpointActions(b, OnCollectionMilestone, terms, milestones, Reading(booking.price, receipts)) else []
    case Other(a) => [a]
  }

  function Actions(bookings: map<BookingId, Booking>, l: Ledger, b: BookingId, milestones: seq<int>, steps: seq<Step>): seq<Action>
    requires b in bookings && bookings[b].broker.Some? && Ascending(milestones)
  {
    if steps == [] then []
    else
      var n := |steps| - 1;
      Actions(bookings, l, b, milestones, steps[..n])
      + StepActions(bookings[b], History(bookings, l, b, milestones, steps[..n]), b, milestones, steps[n])
  }

  /** A history of calls is a run of transactions, so all that holds of runs holds of it. */
  lemma {:induction false} HistoryIsRun(bookings: map<BookingId, Booking>, l: Ledger, b: BookingId, milestones: seq<int>,
                                        steps: seq<Step>)
    requires b in bookings && bookings[b].broker.Some? && Ascending(milestones)
    ensures Run(bookings, l, Actions(bookings, l, b, milestones, steps)) == History(bookings, l, b, milestones, steps)
  {
    hide Apply, Accrue, EndpointActions, Reading;
    if steps != [] {
      var n := |steps| - 1;
      HistoryIsRun(bookings, l, b, milestones, steps[..n]);
      var before := History(bookings, l, b, milestones, steps[..n]);
      RunConcat(bookings, l, Actions(bookings, l, b, milestones, steps[..n]),
                StepActions(bookings[b], before, b, milestones, steps[n]));
      StepIsRun(bookings, before, b, milestones, steps[n]);
    }
  }

  lemma StepIsRun(bookings: map<BookingId, Booking>, before: Ledger, b: BookingId, milestones: seq<int>, step: Step)
    requires b in bookings && bookings[b].broker.Some? && Ascending(milestones)
    ensures Run(bookings, before, StepActions(bookings[b], before, b, milestones, step))
         == AfterStep(bookings, before, b, milestones, step)
  {
    hide Apply, Accrue, EndpointActions, Reading;
    match step
    case Call(terms, receipts) =>
      if CallResult(bookings[b], before, b, milestones, terms, receipts).Success? {
        EndpointIsRun(bookings, before, b, bookings[b].broker.value, OnCollectionMilestone, terms, milestones,
                      Reading(bookings[b].price, receipts));
      }
    case Other(a) =>
      RunOne(bookings, before, a);
  }

  /** The other steps do not accrue on b: its trigger and its rule's milestone list stay what they are. */
  ghost predicate OthersElsewhere(steps: seq<Step>, b: BookingId) {
    forall i :: 0 <= i < |steps| && steps[i].Other? ==> !AccruesOn(steps[i].action, b)
  }

  /** A milestone is attempted if and only if some reading reached it. */
  lemma {:induction false} AttemptedIfRead(bookings: map<BookingId, Booking>, l: Ledger, b: BookingId, milestones: seq<int>,
                                           steps: seq<Step>, i: nat)
    requires b in bookings && bookings[b].broker.Some? && Ascending(milestones)
    requires OthersElsewhere(steps, b) && i < |milestones|
    ensures AccrueMilestone(b, milestones, i) in Actions(bookings, l, b, milestones, steps) <==>
            exists k :: k in Readings(bookings, l, b, milestones, steps) && Reached(milestones[i], k)
  {
    hide Apply, Accrue, Reading, History;
    if steps != [] {
      var n := |steps| - 1;
      AttemptedIfRead(bookings, l, b, milestones, steps[..n], i);
      var step := steps[n];
      if step.Call? {
        AttemptedByCall(b, milestones, step.terms, Reading(bookings[b].price, step.receipts), i);
      }
    }
  }

  lemma AttemptedByCall(b: BookingId, milestones: seq<int>, terms: Option<Terms>, hundredths: int, i: nat)
    requires Ascending(milestones) && i < |milestones|
    ensures AccrueMilestone(b, milestones, i) in EndpointActions(b, OnCollectionMilestone, terms, milestones, hundredths)
            <==> Reached(milestones[i], hundredths)
  {
    ReachedActionsAre(b, milestones, hundredths, |milestones|, AccrueMilestone(b, milestones, i));
  }

  lemma StillUnaccrued(l: Ledger, after: Ledger, b: BookingId)
    requires NoAccrual(l.entries, b) && SameAccruals(l, after, b)
    ensures NoAccrual(after.entries, b)
  {
    hide Total;
    assert forall m :: !HasAccrual(l.entries, b, m);
    forall e | e in after.entries
      ensures e.booking == b && e.kind == Accrual ==> HasAccrual(after.entries, b, e.milestone)
    {
    }
  }

  /** Where a booking stands: ratcheted from its snapshot on, and without any accrual before it. */
  ghost predicate OnTrack(l: Ledger, b: BookingId, milestones: seq<int>, done: seq<Action>)
    requires Ascending(milestones)
  {
    if b in l.snapshots then Ratcheted(l, b, l.snapshots[b], milestones, done)
    else NoAccrual(l.entries, b) && forall i :: 0 <= i < |milestones| ==> AccrueMilestone(b, milestones, i) !in done
  }

  lemma CallKeepsTrack(bookings: map<BookingId, Booking>, l: Ledger, b: BookingId, milestones: seq<int>,
                       terms: Option<Terms>, hundredths: int, done: seq<Action>)
    requires b in bookings && bookings[b].broker.Some? && Ascending(milestones) && OnTrack(l, b, milestones, done)
    requires Accrue(l, b, bookings[b].price, bookings[b].broker.value, OnCollectionMilestone, terms, milestones, hundredths).Success?
    ensures var after := Accrue(l, b, bookings[b].price, bookings[b].broker.value, OnCollectionMilestone, terms,
                                milestones, hundredths).value;
            && b in after.snapshots
            && OnTrack(after, b, milestones, done + EndpointActions(b, OnCollectionMilestone, terms, milestones, hundredths))
  {
    hide MilestoneShares, HasAccrual, Total, PostedSum, ComputeCommissionPaise, AccrueReached, Reached, Ratcheted,
      NoAccrual, MilestonesOnly, Run, ReachedActions;
    var r := bookings[b].broker.value;
    var first := if terms.Some? then [TakeSnapshot(b, terms.value)] else [];
    var reached := ReachedActions(b, milestones, hundredths, |milestones|);
    var snapped := if b in l.snapshots then l else Snapshot(l, b, bookings[b].price, terms.value).value;
    SnappedOnTrack(l, snapped, b, milestones, terms, done);
    ReachedAreMilestones(b, milestones, hundredths);
    RatchetedRun(bookings, snapped, done + first, reached, b, snapped.snapshots[b], milestones);
    ReachedIsRun(bookings, snapped, b, r, milestones, hundredths, |milestones|);
    assert (done + first) + reached == done + (first + reached);
  }

  lemma SnappedOnTrack(l: Ledger, snapped: Ledger, b: BookingId, milestones: seq<int>, terms: Option<Terms>, done: seq<Action>)
    requires Ascending(milestones) && OnTrack(l, b, milestones, done) && b in snapped.snapshots
    requires snapped == l || (b !in l.snapshots && snapped.entries == l.entries)
    ensures var first := if terms.Some? then [TakeSnapshot(b, terms.value)] else [];
            Ratcheted(snapped, b, snapped.snapshots[b], milestones, done + first)
  {
    hide MilestoneShares, HasAccrual, Total, PostedSum, NoAccrual;
    if b !in l.snapshots {
      NotYetRatcheted(snapped, b, milestones, done + if terms.Some? then [TakeSnapshot(b, terms.value)] else []);
    }
  }

  lemma ReachedAreMilestones(b: BookingId, milestones: seq<int>, hundredths: int)
    ensures MilestonesOnly(ReachedActions(b, milestones, hundredths, |milestones|), b, milestones)
  {
    forall a | a in ReachedActions(b, milestones, hundredths, |milestones|)
      ensures exists i :: 0 <= i < |milestones| && a == AccrueMilestone(b, milestones, i)
    {
      ReachedActionsAre(b, milestones, hundredths, |milestones|, a);
    }
  }

  lemma OtherKeepsTrack(bookings: map<BookingId, Booking>, l: Ledger, b: BookingId, milestones: seq<int>, a: Action,
                        done: seq<Action>)
    requires b in bookings && bookings[b].broker.Some? && Ascending(milestones) && OnTrack(l, b, milestones, done)
    requires !AccruesOn(a, b)
    ensures OnTrack(Apply(bookings, l, a), b, milestones, done + [a])
  {
    hide Apply, HasAccrual, Total, Ratcheted, NoAccrual;
    var after := Apply(bookings, l, a);
    OthersLeaveAccruals(bookings, l, a, b);
    if b in l.snapshots {
      RatchetedRun(bookings, l, done, [a], b, l.snapshots[b], milestones);
      RunOne(bookings, l, a);
    } else {
      StillUnaccrued(l, after, b);
      if b in after.snapshots {
        NotYetRatcheted(after, b, milestones, done + [a]);
      }
    }
  }

  lemma {:induction false} HistoryOnTrack(bookings: map<BookingId, Booking>, start: Ledger, b: BookingId,
                                          milestones: seq<int>, steps: seq<Step>)
    requires b in bookings && bookings[b].broker.Some? && Ascending(milestones)
    requires NoAccrual(start.entries, b) && OthersElsewhere(steps, b)
    ensures OnTrack(History(bookings, start, b, milestones, steps), b, milestones,
                    Actions(bookings, start, b, milestones, steps))
    ensures b !in History(bookings, start, b, milestones, steps).snapshots ==>
              Readings(bookings, start, b, milestones, steps) == []
  {
    hide Apply, Accrue, EndpointActions, Reading, OnTrack, NoAccrual;
    if steps == [] {
      StartOnTrack(start, b, milestones);
    } else {
      var n := |steps| - 1;
      HistoryOnTrack(bookings, start, b, milestones, steps[..n]);
      var before, done := History(bookings, start, b, milestones, steps[..n]), Actions(bookings, start, b, milestones, steps[..n]);
      match steps[n]
      case Call(terms, receipts) =>
        if CallResult(bookings[b], before, b, milestones, terms, receipts).Success? {
          CallKeepsTrack(bookings, before, b, milestones, terms, Reading(bookings[b].price, receipts), done);
        } else {
          assert done + [] == done;
        }
      case Other(a) =>
        OtherKeepsTrack(bookings, before, b, milestones, a, done);
        SnapshotStays(bookings, before, a, b);
    }
  }

  lemma StartOnTrack(l: Ledger, b: BookingId, milestones: seq<int>)
    requires Ascending(milestones) && NoAccrual(l.entries, b)
    ensures OnTrack(l, b, milestones, [])
  {
    if b in l.snapshots {
      NotYetRatcheted(l, b, milestones, []);
    }
  }

  lemma SnapshotStays(bookings: map<BookingId, Booking>, l: Ledger, a: Action, b: BookingId)
    requires !AccruesOn(a, b)
    ensures b in l.snapshots ==> b in Apply(bookings, l, a).snapshots
  {
    OthersLeaveAccruals(bookings, l, a, b);
  }

  /**
   * The ratchet: over any history of accrual calls, with receipts coming and going between them and anything
   * else happening to the ledger, the booking has accrued exactly the shares of the milestones up to the
   * highest percentage any call has read.
   */
  lemma AccruedUpToHighest(bookings: map<BookingId, Booking>, start: Ledger, b: BookingId, milestones: seq<int>,
                           steps: seq<Step>)
    requires b in bookings && bookings[b].broker.Some? && Ascending(milestones)
    requires NoAccrual(start.entries, b) && OthersElsewhere(steps, b)
    ensures var after, readings := History(bookings, start, b, milestones, steps), Readings(bookings, start, b, milestones, steps);
            Total(after.entries, Accrued(b)) ==
            if b in after.snapshots
            then SharesUpTo(milestones, MilestoneShares(after.snapshots[b], milestones), Highest(readings), |milestones|)
            else 0
  {
    hide Total, History, Readings, Actions, MilestoneShares, NoAccrual, Ratcheted;
    var after := History(bookings, start, b, milestones, steps);
    HistoryOnTrack(bookings, start, b, milestones, steps);
    if b in after.snapshots {
      forall i | 0 <= i < |milestones|
        ensures AccrueMilestone(b, milestones, i) in Actions(bookings, start, b, milestones, steps) <==>
                exists k :: k in Readings(bookings, start, b, milestones, steps) && Reached(milestones[i], k)
      {
        AttemptedIfRead(bookings, start, b, milestones, steps, i);
      }
      RatchetedUpTo(after, b, milestones, Actions(bookings, start, b, milestones, steps),
                    Readings(bookings, start, b, milestones, steps));
    } else {
      NoAccrualTotal(after.entries, b);
    }
  }

  // ---------------------------------------------------------------- never less, never too much

  lemma {:induction false} HighestGrows(s: seq<int>, t: seq<int>)
    ensures Highest(s) <= Highest(s + t)
  {
    if t == [] {
      assert s + t == s;
    } else {
      assert (s + t)[..|s + t| - 1] == s + t[..|t| - 1];
      HighestGrows(s, t[..|t| - 1]);
    }
  }

  lemma StepKeepsSnapshot(bookings: map<BookingId, Booking>, l: Ledger, b: BookingId, milestones: seq<int>, step: Step)
    requires b in bookings && bookings[b].broker.Some? && Ascending(milestones)
    requires step.Other? ==> !AccruesOn(step.action, b)
    ensures var after := AfterStep(bookings, l, b, milestones, step);
            b in l.snapshots ==> b in after.snapshots && after.snapshots[b] == l.snapshots[b]
  {
    hide Apply, AccrueReached, MilestoneShares, Reading;
    match step
    case Call(terms, receipts) =>
      if b in l.snapshots {
        ReachedIsRun(bookings, l, b, bookings[b].broker.value, milestones, Reading(bookings[b].price, receipts), |milestones|);
      }
    case Other(a) =>
      OthersLeaveAccruals(bookings, l, a, b);
  }

  /** As a history goes on, the frozen total stays and the highest reading does not fall. */
  lemma {:induction false} HistoryGrows(bookings: map<BookingId, Booking>, start: Ledger, b: BookingId, milestones: seq<int>,
                                        steps: seq<Step>, k: nat)
    requires b in bookings && bookings[b].broker.Some? && Ascending(milestones)
    requires OthersElsewhere(steps, b) && k <= |steps|
    ensures var early, late := History(bookings, start, b, milestones, steps[..k]), History(bookings, start, b, milestones, steps);
            b in early.snapshots ==> b in late.snapshots && late.snapshots[b] == early.snapshots[b]
    ensures Highest(Readings(bookings, start, b, milestones, steps[..k]))
         <= Highest(Readings(bookings, start, b, milestones, steps))
  {
    hide AfterStep, CallResult, Reading, Highest;
    var n := |steps| - 1;
    if k == |steps| {
      assert steps[..k] == steps;
    } else {
      assert steps[..n][..k] == steps[..k];
      HistoryGrows(bookings, start, b, milestones, steps[..n], k);
      var front := Readings(bookings, start, b, milestones, steps[..n]);
      HighestGrows(front, Readings(bookings, start, b, milestones, steps)[|front|..]);
      assert Readings(bookings, start, b, milestones, steps)
          == front + Readings(bookings, start, b, milestones, steps)[|front|..];
      StepKeepsSnapshot(bookings, History(bookings, start, b, milestones, steps[..n]), b, milestones, steps[n]);
    }
  }

  /**
   * So what a booking has accrued never shrinks along a history, never exceeds the frozen total, and equals it
   * as soon as some call has read the last milestone.
   */
  lemma AccruedNeverShrinks(bookings: map<BookingId, Booking>, start: Ledger, b: BookingId, milestones: seq<int>,
                            steps: seq<Step>, k: nat)
    requires b in bookings && bookings[b].broker.Some? && Ascending(milestones) && milestones != []
    requires NoAccrual(start.entries, b) && OthersElsewhere(steps, b) && k <= |steps|
    ensures var early, late := History(bookings, start, b, milestones, steps[..k]), History(bookings, start, b, milestones, steps);
            b in late.snapshots && late.snapshots[b] >= 0 ==>
            && 0 <= Total(early.entries, Accrued(b)) <= Total(late.entries, Accrued(b)) <= late.snapshots[b]
            && ((exists h :: h in Readings(bookings, start, b, milestones, steps) && Reached(milestones[|milestones| - 1], h))
                ==> Total(late.entries, Accrued(b)) == late.snapshots[b])
  {
    hide Total, History, Readings, MilestoneShares, NoAccrual, Highest, SharesUpTo, Reached;
    var early, late := History(bookings, start, b, milestones, steps[..k]), History(bookings, start, b, milestones, steps);
    var low, high := Readings(bookings, start, b, milestones, steps[..k]), Readings(bookings, start, b, milestones, steps);
    if b in late.snapshots && late.snapshots[b] >= 0 {
      HistoryGrows(bookings, start, b, milestones, steps, k);
      AccruedUpToHighest(bookings, start, b, milestones, steps[..k]);
      AccruedUpToHighest(bookings, start, b, milestones, steps);
      RatchetBounds(late.snapshots[b], milestones, Highest(low), Highest(high));
      ReachedByHighest(high, milestones[|milestones| - 1]);
    }
  }
}
