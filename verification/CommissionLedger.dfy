/**
 * The append-only commission ledger: entries, what they add up to, and the transactions that post
 * them as functions from ledger to ledger.
 */
module CommissionLedger {
  import opened Common
  import opened Money
  import opened Rounding
  import opened CommissionRules

  type BookingId = nat
  type BrokerId = nat
  type PaymentId = nat

  datatype EntryKind =
    | Accrual
    | TdsWithheld
    | Payment
    | ClawbackReversal
    | ClawbackRecovery
    | ClawbackWriteoff

  /** `milestone` is set on accruals at a collection milestone only. */
  datatype Entry = Entry(broker: BrokerId, booking: BookingId, kind: EntryKind, amount: int, milestone: Option<int>)

  datatype PaymentStatus = Requested | Approved | Paid | Rejected

  datatype PaymentRow = PaymentRow(broker: BrokerId, amount: int, status: PaymentStatus)

  datatype Booking = Booking(broker: Option<BrokerId>, price: int)

  /** Entries stand in creation order; a payment's id is its row number; a snapshot is a booking's frozen total. */
  datatype Ledger = Ledger(entries: seq<Entry>, payments: seq<PaymentRow>, snapshots: map<BookingId, int>)

  datatype LedgerError =
    | NotFound
    | WrongStatus(status: PaymentStatus)
    | ExceedsBalance
    | NothingOutstanding
    | ExceedsOutstanding
    | NoRule
    | NoMatchingSlab
    | WriteoffWithoutReason

  const EMPTY := Ledger([], [], map[])

  // ---------------------------------------------------------------- what entries add up to

  datatype Query =
    | Outstanding(booking: BookingId)
    | Accrued(booking: BookingId)
    | Cash(booking: BookingId)
    | Tds(booking: BookingId)
    | Clawed(booking: BookingId)
    | BrokerBalance(broker: BrokerId)
    | BrokerBooking(broker: BrokerId, booking: BookingId)
    | Disbursed(broker: BrokerId)
    | Withheld(broker: BrokerId)

  predicate IsClawback(kind: EntryKind) {
    kind == ClawbackReversal || kind == ClawbackRecovery || kind == ClawbackWriteoff
  }

  predicate Counts(q: Query, e: Entry) {
    match q
    case Outstanding(b) => e.booking == b
    case Accrued(b) => e.booking == b && e.kind == Accrual
    case Cash(b) => e.booking == b && e.kind == Payment
    case Tds(b) => e.booking == b && e.kind == TdsWithheld
    case Clawed(b) => e.booking == b && IsClawback(e.kind)
    case BrokerBalance(r) => e.broker == r
    case BrokerBooking(r, b) => e.broker == r && e.booking == b
    case Disbursed(r) => e.broker == r && (e.kind == Payment || e.kind == TdsWithheld)
    case Withheld(r) => e.broker == r && e.kind == TdsWithheld
  }

  /** Money paid out or withheld is counted positive although its entries are negative. */
  function Weight(q: Query, e: Entry): int {
    if !Counts(q, e) then 0
    else if q.Cash? || q.Tds? || q.Disbursed? || q.Withheld? then -e.amount
    else e.amount
  }

  function Total(entries: seq<Entry>, q: Query): int {
    if entries == [] then 0 else Total(entries[..|entries| - 1], q) + Weight(q, entries[|entries| - 1])
  }

  lemma TotalAppend(entries: seq<Entry>, e: Entry, q: Query)
    ensures Total(entries + [e], q) == Total(entries, q) + Weight(q, e)
  {
    assert (entries + [e])[..|entries|] == entries;
  }

  lemma {:induction false} TotalConcat(s: seq<Entry>, t: seq<Entry>, q: Query)
    ensures Total(s + t, q) == Total(s, q) + Total(t, q)
  {
    if t == [] {
      assert s + t == s;
    } else {
      assert (s + t)[..|s + t| - 1] == s + t[..|t| - 1];
      TotalConcat(s, t[..|t| - 1], q);
    }
  }

  /** Outstanding is accrued less cash less tax plus clawback: no kind of entry escapes the account. */
  lemma {:induction false} OutstandingSplits(entries: seq<Entry>, b: BookingId)
    ensures Total(entries, Outstanding(b)) == Total(entries, Accrued(b)) - Total(entries, Cash(b))
                                              - Total(entries, Tds(b)) + Total(entries, Clawed(b))
  {
    if entries != [] {
      OutstandingSplits(entries[..|entries| - 1], b);
    }
  }

  /** Every entry of a booking is on the booking's own broker. */
  ghost predicate OwnBroker(bookings: map<BookingId, Booking>, entries: seq<Entry>) {
    forall i :: 0 <= i < |entries| ==>
      entries[i].booking in bookings && bookings[entries[i].booking].broker == Some(entries[i].broker)
  }

  /** So a broker's share of a booking is all of it, or nothing. */
  lemma {:induction false} BrokerShare(bookings: map<BookingId, Booking>, entries: seq<Entry>, r: BrokerId, b: BookingId)
    requires OwnBroker(bookings, entries)
    ensures Total(entries, BrokerBooking(r, b)) ==
            if b in bookings && bookings[b].broker == Some(r) then Total(entries, Outstanding(b)) else 0
  {
    if entries != [] {
      BrokerShare(bookings, entries[..|entries| - 1], r, b);
      assert OwnBroker(bookings, entries[..|entries| - 1]);
      var e := entries[|entries| - 1];
      assert e.booking in bookings && bookings[e.booking].broker == Some(e.broker);
    }
  }

  // ---------------------------------------------------------------- accrual

  predicate HasAccrual(entries: seq<Entry>, b: BookingId, milestone: Option<int>) {
    exists i :: 0 <= i < |entries| && entries[i].booking == b && entries[i].kind == Accrual
                && entries[i].milestone == milestone
  }

  /** The frozen total is computed on the first call and read back ever after. */
  function Snapshot(l: Ledger, b: BookingId, price: int, terms: Terms): Option<Ledger> {
    if b in l.snapshots then Some(l)
    else
      var total := ComputeCommissionPaise(price, terms);
      if total.None? then None else Some(l.(snapshots := l.snapshots[b := total.value]))
  }

  /** What is frozen for a booking is the commission its terms give at the time; what is frozen already stays. */
  lemma SnapshotIsCommission(l: Ledger, b: BookingId, price: int, terms: Terms)
    ensures b in l.snapshots ==> Snapshot(l, b, price, terms) == Some(l)
    ensures b !in l.snapshots && Snapshot(l, b, price, terms).Some? ==>
              exists c :: IsCommission(price, terms, c)
                          && Snapshot(l, b, price, terms).value == l.(snapshots := l.snapshots[b := c])
    ensures b !in l.snapshots && Snapshot(l, b, price, terms).None? ==> forall c :: !IsCommission(price, terms, c)
  {
    hide IsCommission, ComputeCommissionPaise;
    var total := ComputeCommissionPaise(price, terms);
    forall c
      ensures total == Some(c) <==> IsCommission(price, terms, c)
    {
      CommissionIs(price, terms, c);
    }
    if total.Some? {
      assert IsCommission(price, terms, total.value);
    }
  }

  /** One accrual transaction: find-or-create by booking and milestone. */
  function AccrueOnce(l: Ledger, b: BookingId, r: BrokerId, amount: int, milestone: Option<int>): Ledger {
    if HasAccrual(l.entries, b, milestone) then l
    else l.(entries := l.entries + [Entry(r, b, Accrual, amount, milestone)])
  }

  /** Strictly ascending percentages in (0, 100]. */
  predicate Ascending(milestones: seq<int>) {
    forall i :: 0 <= i < |milestones| ==>
      1 <= milestones[i] <= 100 && (i > 0 ==> milestones[i - 1] < milestones[i])
  }

  /** Each milestone weighs what it adds to the one before it. */
  function Marginals(milestones: seq<int>): (w: seq<int>)
    ensures |w| == |milestones|
  {
    seq(|milestones|, i requires 0 <= i < |milestones| =>
      milestones[i] - (if i == 0 then 0 else milestones[i - 1]))
  }

  lemma {:induction false} MarginalSum(milestones: seq<int>)
    requires milestones != []
    ensures Sum(Marginals(milestones)) == milestones[|milestones| - 1]
  {
    var n := |milestones| - 1;
    assert Marginals(milestones)[..n] == Marginals(milestones[..n]);
    if n > 0 {
      MarginalSum(milestones[..n]);
    }
  }

  function MilestoneShares(total: int, milestones: seq<int>): (s: seq<int>)
    requires Ascending(milestones)
    ensures |s| == |milestones|
  {
    if milestones == [] then []
    else
      MarginalSum(milestones);
      Allocation(total, Marginals(milestones))
  }

  /** The shares are non-negative and add up to the frozen total. */
  lemma MilestoneSharesPartition(total: int, milestones: seq<int>)
    requires Ascending(milestones) && milestones != [] && total >= 0
    ensures Sum(MilestoneShares(total, milestones)) == total
    ensures NonNegative(MilestoneShares(total, milestones))
  {
    var w := Marginals(milestones);
    MarginalSum(milestones);
    assert NonNegative(w);
    AllocationConserves(total, w);
    AllocationNonNegative(total, w);
  }

  /** They are the largest-remainder split in proportion to what each milestone adds to the one before it. */
  lemma MilestoneSharesProportional(total: int, milestones: seq<int>)
    requires Ascending(milestones) && milestones != [] && total >= 0
    ensures var w := seq(|milestones|, i requires 0 <= i < |milestones| =>
                       if i == 0 then milestones[0] else milestones[i] - milestones[i - 1]);
            Sum(w) == milestones[|milestones| - 1] && LargestRemainder(total, w, MilestoneShares(total, milestones))
  {
    var w := seq(|milestones|, i requires 0 <= i < |milestones| =>
               if i == 0 then milestones[0] else milestones[i] - milestones[i - 1]);
    assert w == Marginals(milestones);
    MarginalSum(milestones);
    AllocationIsLargestRemainder(total, w);
  }

  // ---------------------------------------------------------------- how much has been collected

  datatype Clearance = NotApplicable | Cleared | Pending | Bounced

  datatype Receipt = Receipt(gross: int, tds: seq<int>, reversed: bool, clearance: Clearance)

  predicate Collected(r: Receipt) {
    !r.reversed && (r.clearance == NotApplicable || r.clearance == Cleared)
  }

  function NetReceived(receipts: seq<Receipt>): int {
    if receipts == [] then 0
    else
      var r := receipts[|receipts| - 1];
      NetReceived(receipts[..|receipts| - 1]) + if Collected(r) then r.gross - Sum(r.tds) else 0
  }

  /** Receipts count when they are not reversed and need no clearance or have been cleared, net of tax. */
  lemma {:induction false} NetReceivedIs(receipts: seq<Receipt>)
    ensures NetReceived(receipts) ==
            Sum(seq(|receipts|, i requires 0 <= i < |receipts| =>
                  if receipts[i].reversed || receipts[i].clearance == Pending || receipts[i].clearance == Bounced then 0
                  else receipts[i].gross - Sum(receipts[i].tds)))
  {
    var nets := seq(|receipts|, i requires 0 <= i < |receipts| =>
                  if receipts[i].reversed || receipts[i].clearance == Pending || receipts[i].clearance == Bounced then 0
                  else receipts[i].gross - Sum(receipts[i].tds));
    if receipts != [] {
      var n := |receipts| - 1;
      NetReceivedIs(receipts[..n]);
      assert nets[..n] == seq(n, i requires 0 <= i < n =>
                            if receipts[..n][i].reversed || receipts[..n][i].clearance == Pending
                               || receipts[..n][i].clearance == Bounced then 0
                            else receipts[..n][i].gross - Sum(receipts[..n][i].tds));
    }
  }

  /** The collected percentage in hundredths of a percent, truncated. */
  function CollectedHundredths(net: int, price: int): int {
    if price <= 0 then 0 else TruncDiv(net * 10000, price)
  }

  predicate Reached(milestone: int, hundredths: int) {
    milestone * 100 <= hundredths
  }

  /** Truncation never moves a milestone: it is reached exactly when that share of the price is in. */
  lemma ReachedExactly(milestone: int, net: int, price: int)
    requires milestone >= 1 && price > 0
    ensures Reached(milestone, CollectedHundredths(net, price)) <==> net * 100 >= milestone * price
  {
    var x := milestone * price;
    assert (milestone * 100) * price == 100 * x;
    Steps(0, milestone, price);
    if net >= 0 {
      QuotientAtLeast(net * 10000, price, milestone * 100);
    } else {
      QuotientAtLeast(-(net * 10000), price, 0);
    }
  }

  /** A booking without a positive price reaches none, whatever has been received. */
  lemma NothingReachedWithoutPrice(milestone: int, net: int, price: int)
    requires milestone >= 1 && price <= 0
    ensures !Reached(milestone, CollectedHundredths(net, price))
  {
  }

  /** One call of the milestone accrual, up to milestone n: each reached milestone in its own transaction. */
  function AccrueReached(l: Ledger, b: BookingId, r: BrokerId, milestones: seq<int>, shares: seq<int>,
                         hundredths: int, n: nat): Ledger
    requires |shares| == |milestones| && n <= |milestones|
  {
    if n == 0 then l
    else
      var before := AccrueReached(l, b, r, milestones, shares, hundredths, n - 1);
      if Reached(milestones[n - 1], hundredths)
      then AccrueOnce(before, b, r, shares[n - 1], Some(milestones[n - 1]))
      else before
  }

  datatype AccrualTrigger = OnBooking | OnCollectionMilestone

  /** What the accrual endpoint does for one booking of broker r. */
  function Accrue(l: Ledger, b: BookingId, price: int, r: BrokerId, trigger: AccrualTrigger, terms: Option<Terms>,
                  milestones: seq<int>, hundredths: int): Result<Ledger, LedgerError>
    requires Ascending(milestones)
  {
    if b !in l.snapshots && terms.None? then Failure(NoRule) else
    var snapped := if b in l.snapshots then Some(l) else Snapshot(l, b, price, terms.value);
    if snapped.None? then Failure(NoMatchingSlab) else
    var total := snapped.value.snapshots[b];
    if trigger == OnBooking then Success(AccrueOnce(snapped.value, b, r, total, None))
    else
      Success(AccrueReached(snapped.value, b, r, milestones, MilestoneShares(total, milestones), hundredths,
                            |milestones|))
  }

  // ---------------------------------------------------------------- clawback

  datatype ClawbackPolicy = Recover | WriteOff

  /** Unearned commission is taken back whatever the policy. */
  function Reversal(entries: seq<Entry>, b: BookingId, r: BrokerId): seq<Entry> {
    var outstanding := Total(entries, Outstanding(b));
    if outstanding != 0 then [Entry(r, b, ClawbackReversal, -outstanding, None)] else []
  }

  /** Cash already paid out is recovered, or written off by an entry of zero. */
  function CashClawback(entries: seq<Entry>, b: BookingId, r: BrokerId, policy: ClawbackPolicy): seq<Entry> {
    var netPaid := Total(entries, Cash(b));
    if netPaid <= 0 then []
    else if policy == WriteOff then [Entry(r, b, ClawbackWriteoff, 0, None)]
    else [Entry(r, b, ClawbackRecovery, -netPaid, None)]
  }

  function Clawback(l: Ledger, b: BookingId, r: BrokerId, policy: ClawbackPolicy): Ledger {
    l.(entries := l.entries + (Reversal(l.entries, b, r) + CashClawback(l.entries, b, r, policy)))
  }

  /** How many entries are of a kind. */
  function CountOf(entries: seq<Entry>, kind: EntryKind): nat {
    if entries == [] then 0 else CountOf(entries[1..], kind) + if entries[0].kind == kind then 1 else 0
  }

  /**
   * A cancellation posts for its booking and broker only: one reversal that cancels what is outstanding, if
   * anything is, and, if cash was paid, one recovery of all of it or one write-off of zero, as the policy says.
   */
  lemma ClawbackPosts(l: Ledger, b: BookingId, r: BrokerId, policy: ClawbackPolicy)
    ensures var out, cash := Total(l.entries, Outstanding(b)), Total(l.entries, Cash(b));
            var after := Clawback(l, b, r, policy);
            && after.payments == l.payments && after.snapshots == l.snapshots
            && l.entries <= after.entries
            && var posted := after.entries[|l.entries|..];
               && (forall e :: e in posted ==> e.broker == r && e.booking == b && e.milestone == None)
               && |posted| == (if out != 0 then 1 else 0) + (if cash > 0 then 1 else 0)
               && CountOf(posted, ClawbackReversal) == (if out != 0 then 1 else 0)
               && CountOf(posted, ClawbackRecovery) == (if cash > 0 && policy == Recover then 1 else 0)
               && CountOf(posted, ClawbackWriteoff) == (if cash > 0 && policy == WriteOff then 1 else 0)
               && forall e :: e in posted ==>
                    e.amount == (if e.kind == ClawbackReversal then -out else if e.kind == ClawbackRecovery then -cash else 0)
  {
    hide Total, CountOf;
    var posted := Reversal(l.entries, b, r) + CashClawback(l.entries, b, r, policy);
    assert Clawback(l, b, r, policy).entries[|l.entries|..] == posted;
    var x, y := Reversal(l.entries, b, r), CashClawback(l.entries, b, r, policy);
    CountOfConcat(x, y, ClawbackReversal);
    CountOfConcat(x, y, ClawbackRecovery);
    CountOfConcat(x, y, ClawbackWriteoff);
    CountOfOne(if x != [] then x[0] else Entry(r, b, Accrual, 0, None));
    CountOfOne(if y != [] then y[0] else Entry(r, b, Accrual, 0, None));
  }

  lemma {:induction false} CountOfConcat(s: seq<Entry>, t: seq<Entry>, kind: EntryKind)
    ensures CountOf(s + t, kind) == CountOf(s, kind) + CountOf(t, kind)
  {
    if s == [] {
      assert s + t == t;
    } else {
      assert (s + t)[1..] == s[1..] + t;
      CountOfConcat(s[1..], t, kind);
    }
  }

  lemma CountOfOne(e: Entry)
    ensures forall kind :: CountOf([e], kind) == if e.kind == kind then 1 else 0
    ensures forall kind :: CountOf([], kind) == 0
  {
    assert [e][1..] == [];
  }

  // ---------------------------------------------------------------- paying a broker

  datatype Due = Due(booking: BookingId, amount: int)

  function DueSum(dues: seq<Due>): int {
    if dues == [] then 0 else dues[0].amount + DueSum(dues[1..])
  }

  /** The broker's bookings in the order the ledger first mentions them. */
  function Seen(entries: seq<Entry>, r: BrokerId): seq<BookingId> {
    if entries == [] then []
    else
      var e, before := entries[|entries| - 1], Seen(entries[..|entries| - 1], r);
      if e.broker == r && e.booking !in before then before + [e.booking] else before
  }

  /** A booking the ledger never mentions for a broker has nothing of the broker's. */
  lemma {:induction false} UnmentionedTotal(entries: seq<Entry>, r: BrokerId, b: BookingId)
    ensures b !in Seen(entries, r) ==> Total(entries, BrokerBooking(r, b)) == 0
  {
    if entries != [] {
      UnmentionedTotal(entries[..|entries| - 1], r, b);
    }
  }

  /** Those with something outstanding, keeping the order. */
  function Positive(seen: seq<BookingId>, entries: seq<Entry>, r: BrokerId): seq<Due> {
    if seen == [] then []
    else
      var before, b := Positive(seen[..|seen| - 1], entries, r), seen[|seen| - 1];
      var total := Total(entries, BrokerBooking(r, b));
      if total > 0 then before + [Due(b, total)] else before
  }

  function Dues(entries: seq<Entry>, r: BrokerId): seq<Due> {
    Positive(Seen(entries, r), entries, r)
  }

  /** Oldest first, each as far as the money goes. */
  function Takes(dues: seq<Due>, amount: int): seq<Due> {
    if dues == [] || amount <= 0 then []
    else
      var take := if dues[0].amount < amount then dues[0].amount else amount;
      [Due(dues[0].booking, take)] + Takes(dues[1..], amount - take)
  }

  function Grosses(takes: seq<Due>): (g: seq<int>)
    ensures |g| == |takes|
  {
    seq(|takes|, i requires 0 <= i < |takes| => takes[i].amount)
  }

  datatype TdsRule = TdsRule(basisPoints: int, threshold: int)

  function TdsOn(amount: int, rule: Option<TdsRule>): int {
    if rule.Some? && amount >= rule.value.threshold then PercentOf(amount, rule.value.basisPoints) else 0
  }

  function TdsShares(tds: int, takes: seq<Due>): (s: seq<int>)
    requires tds > 0 ==> Sum(Grosses(takes)) > 0
    ensures |s| == |takes|
  {
    if tds > 0 then Allocation(tds, Grosses(takes)) else seq(|takes|, i => 0)
  }

  /** The entries of one booking's part of a payment. */
  function PairFor(r: BrokerId, take: Due, tdsShare: int): seq<Entry> {
    [Entry(r, take.booking, Payment, -(take.amount - tdsShare), None)]
    + if tdsShare > 0 then [Entry(r, take.booking, TdsWithheld, -tdsShare, None)] else []
  }

  function Postings(r: BrokerId, takes: seq<Due>, shares: seq<int>): seq<Entry>
    requires |shares| == |takes|
  {
    if takes == [] then []
    else
      var n := |takes| - 1;
      Postings(r, takes[..n], shares[..n]) + PairFor(r, takes[n], shares[n])
  }

  /** Why a payment cannot be made, if it cannot. */
  function PayProblem(l: Ledger, id: PaymentId): Option<LedgerError> {
    if id >= |l.payments| then Some(NotFound) else
    var p := l.payments[id];
    if p.status != Approved then Some(WrongStatus(p.status)) else
    var dues := Dues(l.entries, p.broker);
    if Takes(dues, p.amount) == [] then Some(NothingOutstanding)
    else if p.amount > DueSum(Takes(dues, p.amount)) then Some(ExceedsOutstanding)
    else None
  }

  lemma {:induction false} DueSumIsGrossSum(takes: seq<Due>)
    ensures Sum(Grosses(takes)) == DueSum(takes)
  {
    if takes != [] {
      DueSumIsGrossSum(takes[1..]);
      assert Grosses(takes) == [takes[0].amount] + Grosses(takes[1..]);
      SumConcat([takes[0].amount], Grosses(takes[1..]));
      assert [takes[0].amount][..0] == [];
    }
  }

  lemma {:induction false} DueSumConcat(s: seq<Due>, t: seq<Due>)
    ensures DueSum(s + t) == DueSum(s) + DueSum(t)
  {
    if s == [] {
      assert s + t == t;
    } else {
      assert (s + t)[1..] == s[1..] + t;
      DueSumConcat(s[1..], t);
    }
  }

  ghost predicate AllPositive(dues: seq<Due>) {
    forall i :: 0 <= i < |dues| ==> dues[i].amount > 0
  }

  lemma {:induction false} DueSumPositive(dues: seq<Due>)
    requires AllPositive(dues)
    ensures DueSum(dues) >= |dues|
  {
    if dues != [] {
      DueSumPositive(dues[1..]);
    }
  }

  /** The oldest-first rule takes as much as fits. */
  lemma {:induction false} TakesWhatFits(dues: seq<Due>, amount: int)
    requires AllPositive(dues)
    ensures DueSum(Takes(dues, amount)) == if amount <= 0 then 0 else Min(amount, DueSum(dues))
  {
    DueSumPositive(dues);
    if dues != [] && amount > 0 {
      var take := if dues[0].amount < amount then dues[0].amount else amount;
      DueSumPositive(dues[1..]);
      TakesWhatFits(dues[1..], amount - take);
      assert Takes(dues, amount)[1..] == Takes(dues[1..], amount - take);
    }
  }

  /** It takes in order, and everything but the last in full. */
  lemma {:induction false} TakesOldestFirst(dues: seq<Due>, amount: int)
    requires AllPositive(dues)
    ensures var t := Takes(dues, amount);
            && |t| <= |dues|
            && (forall i :: 0 <= i < |t| ==> t[i].booking == dues[i].booking && 0 < t[i].amount <= dues[i].amount)
            && (forall i :: 0 <= i < |t| - 1 ==> t[i].amount == dues[i].amount)
  {
    if dues != [] && amount > 0 {
      var take := if dues[0].amount < amount then dues[0].amount else amount;
      TakesOldestFirst(dues[1..], amount - take);
      var t, u := Takes(dues, amount), Takes(dues[1..], amount - take);
      assert t == [Due(dues[0].booking, take)] + u;
      assert forall i :: 0 < i < |t| ==> t[i] == u[i - 1] && dues[i] == dues[1..][i - 1];
      assert take < dues[0].amount ==> u == [];
    }
  }

  lemma {:induction false} PositiveDues(seen: seq<BookingId>, entries: seq<Entry>, r: BrokerId)
    ensures AllPositive(Positive(seen, entries, r))
  {
    if seen != [] {
      PositiveDues(seen[..|seen| - 1], entries, r);
    }
  }

  lemma TakenSumPositive(entries: seq<Entry>, r: BrokerId, amount: int)
    ensures var takes := Takes(Dues(entries, r), amount);
            takes != [] ==> Sum(Grosses(takes)) > 0
  {
    PositiveDues(Seen(entries, r), entries, r);
    TakesOldestFirst(Dues(entries, r), amount);
    DueSumIsGrossSum(Takes(Dues(entries, r), amount));
    DueSumPositive(Takes(Dues(entries, r), amount));
  }

  function PayEntries(l: Ledger, id: PaymentId, rule: Option<TdsRule>): seq<Entry>
    requires PayProblem(l, id) == None
  {
    var p := l.payments[id];
    var takes := Takes(Dues(l.entries, p.broker), p.amount);
    TakenSumPositive(l.entries, p.broker, p.amount);
    Postings(p.broker, takes, TdsShares(TdsOn(p.amount, rule), takes))
  }

  function Pay(l: Ledger, id: PaymentId, rule: Option<TdsRule>): Result<Ledger, LedgerError> {
    var problem := PayProblem(l, id);
    if problem.Some? then Failure(problem.value)
    else
      Success(l.(entries := l.entries + PayEntries(l, id, rule),
                 payments := l.payments[id := l.payments[id].(status := Paid)]))
  }

  function Request(l: Ledger, r: BrokerId, amount: int): Result<Ledger, LedgerError> {
    if amount > Total(l.entries, BrokerBalance(r)) then Failure(ExceedsBalance)
    else Success(l.(payments := l.payments + [PaymentRow(r, amount, Requested)]))
  }

  /** Approval and rejection: both leave REQUESTED only. */
  function Decide(l: Ledger, id: PaymentId, outcome: PaymentStatus): Result<Ledger, LedgerError> {
    if id >= |l.payments| then Failure(NotFound)
    else if l.payments[id].status != Requested then Failure(WrongStatus(l.payments[id].status))
    else Success(l.(payments := l.payments[id := l.payments[id].(status := outcome)]))
  }

  /** A request is accepted up to the broker's net balance, and adds one REQUESTED row for that broker and amount. */
  lemma RequestIs(l: Ledger, r: BrokerId, amount: int)
    ensures Request(l, r, amount).Success? <==> amount <= Total(l.entries, BrokerBalance(r))
    ensures Request(l, r, amount).Failure? ==> Request(l, r, amount).error == ExceedsBalance
    ensures Request(l, r, amount).Success? ==>
              var after := Request(l, r, amount).value;
              && after.entries == l.entries && after.snapshots == l.snapshots
              && |after.payments| == |l.payments| + 1 && l.payments <= after.payments
              && after.payments[|l.payments|] == PaymentRow(r, amount, Requested)
  {
  }

  /** A decision is taken on a REQUESTED payment only, and changes that payment's status to what was decided. */
  lemma DecideIs(l: Ledger, id: PaymentId, outcome: PaymentStatus)
    ensures Decide(l, id, outcome).Success? <==> id < |l.payments| && l.payments[id].status == Requested
    ensures Decide(l, id, outcome).Failure? ==>
              Decide(l, id, outcome).error == if id >= |l.payments| then NotFound else WrongStatus(l.payments[id].status)
    ensures Decide(l, id, outcome).Success? ==>
              var after := Decide(l, id, outcome).value;
              && after.entries == l.entries && after.snapshots == l.snapshots && |after.payments| == |l.payments|
              && (forall k :: 0 <= k < |l.payments| && k != id ==> after.payments[k] == l.payments[k])
              && after.payments[id] == PaymentRow(l.payments[id].broker, l.payments[id].amount, outcome)
  {
  }
}
