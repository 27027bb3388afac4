/** What a payment does to the ledger: exact amounts, oldest bookings first, tax within each share. */
module CommissionSettlement {
  import opened Common
  import opened Money
  import opened Rounding
  import opened CommissionLedger

  // ---------------------------------------------------------------- the queue of bookings

  ghost predicate DistinctBookings(s: seq<BookingId>) {
    forall i, j :: 0 <= i < j < |s| ==> s[i] != s[j]
  }

  lemma {:induction false} SeenDistinct(entries: seq<Entry>, r: BrokerId)
    ensures DistinctBookings(Seen(entries, r))
  {
    if entries != [] {
      SeenDistinct(entries[..|entries| - 1], r);
    }
  }

  ghost predicate MentionedBy(entries: seq<Entry>, r: BrokerId, b: BookingId) {
    exists k :: 0 <= k < |entries| && entries[k].broker == r && entries[k].booking == b
  }

  lemma {:induction false} SeenIsMentioned(entries: seq<Entry>, r: BrokerId, b: BookingId)
    ensures b in Seen(entries, r) <==> MentionedBy(entries, r, b)
  {
    if entries != [] {
      var n := |entries| - 1;
      SeenIsMentioned(entries[..n], r, b);
      if MentionedBy(entries[..n], r, b) {
        var k :| 0 <= k < n && entries[..n][k].broker == r && entries[..n][k].booking == b;
        assert entries[k] == entries[..n][k];
      }
      if MentionedBy(entries, r, b) {
        var k :| 0 <= k <= n && entries[k].broker == r && entries[k].booking == b;
        assert k < n ==> entries[..n][k] == entries[k];
      }
    }
  }

  /** The queue is by age: what stands earlier was mentioned when the later one was not yet. */
  lemma {:induction false} SeenByAge(entries: seq<Entry>, r: BrokerId, i: nat, j: nat) returns (k: nat)
    requires i < j < |Seen(entries, r)|
    ensures k <= |entries|
    ensures MentionedBy(entries[..k], r, Seen(entries, r)[i])
    ensures !MentionedBy(entries[..k], r, Seen(entries, r)[j])
  {
    var n := |entries| - 1;
    var seen, before := Seen(entries, r), Seen(entries[..n], r);
    if j < |before| {
      k := SeenByAge(entries[..n], r, i, j);
      assert entries[..k] == entries[..n][..k];
    } else {
      k := n;
      assert before[i] in before;
      SeenIsMentioned(entries[..n], r, seen[i]);
      SeenIsMentioned(entries[..n], r, seen[j]);
    }
  }

  // ---------------------------------------------------------------- how much of it a payment takes

  /** The part of a list of dues that is booking b's. */
  function Gross(dues: seq<Due>, b: BookingId): int {
    if dues == [] then 0
    else (if dues[0].booking == b then dues[0].amount else 0) + Gross(dues[1..], b)
  }

  lemma {:induction false} GrossConcat(s: seq<Due>, t: seq<Due>, b: BookingId)
    ensures Gross(s + t, b) == Gross(s, b) + Gross(t, b)
  {
    if s == [] {
      assert s + t == t;
    } else {
      assert (s + t)[1..] == s[1..] + t;
      GrossConcat(s[1..], t, b);
    }
  }

  lemma GrossOfOne(d: Due, b: BookingId)
    ensures Gross([d], b) == if d.booking == b then d.amount else 0
  {
    assert [d][1..] == [];
  }

  /** The queue holds each booking with a positive total once, and nothing else. */
  lemma {:induction false} GrossOfPositive(seen: seq<BookingId>, entries: seq<Entry>, r: BrokerId, b: BookingId)
    requires DistinctBookings(seen)
    ensures var total := Total(entries, BrokerBooking(r, b));
            Gross(Positive(seen, entries, r), b) == if b in seen && total > 0 then total else 0
  {
    if seen != [] {
      var n := |seen| - 1;
      GrossOfPositive(seen[..n], entries, r, b);
      var d := Due(seen[n], Total(entries, BrokerBooking(r, seen[n])));
      GrossConcat(Positive(seen[..n], entries, r), [d], b);
      GrossOfOne(d, b);
      assert seen == seen[..n] + [seen[n]];
    }
  }

  lemma {:induction false} GrossOfTakes(dues: seq<Due>, amount: int, b: BookingId)
    requires AllPositive(dues)
    ensures 0 <= Gross(Takes(dues, amount), b) <= Gross(dues, b)
  {
    GrossNonNegative(dues, b);
    if dues != [] && amount > 0 {
      var take := if dues[0].amount < amount then dues[0].amount else amount;
      GrossOfTakes(dues[1..], amount - take, b);
      assert Takes(dues, amount)[1..] == Takes(dues[1..], amount - take);
    }
  }

  lemma {:induction false} GrossNonNegative(dues: seq<Due>, b: BookingId)
    requires AllPositive(dues)
    ensures Gross(dues, b) >= 0
  {
    if dues != [] {
      GrossNonNegative(dues[1..], b);
    }
  }

  function TakesFor(entries: seq<Entry>, p: PaymentRow): seq<Due> {
    Takes(Dues(entries, p.broker), p.amount)
  }

  /** A payment takes at most what is outstanding on a booking, and nothing of another broker's. */
  lemma TakenWithinOutstanding(bookings: map<BookingId, Booking>, entries: seq<Entry>, p: PaymentRow, b: BookingId)
    requires OwnBroker(bookings, entries)
    ensures var g := Gross(TakesFor(entries, p), b);
            && 0 <= g
            && (g > 0 ==> g <= Total(entries, Outstanding(b)) && b in bookings
                          && bookings[b].broker == Some(p.broker))
  {
    var seen := Seen(entries, p.broker);
    SeenDistinct(entries, p.broker);
    PositiveDues(seen, entries, p.broker);
    GrossOfTakes(Dues(entries, p.broker), p.amount, b);
    GrossOfPositive(seen, entries, p.broker, b);
    BrokerShare(bookings, entries, p.broker, b);
  }

  // ---------------------------------------------------------------- what it posts

  /** Tax shares fit: they add up to the tax and none exceeds its booking's gross share. */
  lemma TdsSharesFit(tds: int, takes: seq<Due>)
    requires AllPositive(takes) && takes != [] && 0 <= tds <= DueSum(takes)
    ensures Sum(Grosses(takes)) == DueSum(takes) > 0
    ensures Sum(TdsShares(tds, takes)) == tds
    ensures forall i :: 0 <= i < |takes| ==> 0 <= TdsShares(tds, takes)[i] <= takes[i].amount
  {
    DueSumIsGrossSum(takes);
    DueSumPositive(takes);
    if tds == 0 {
      NothingWithheld(takes);
    } else {
      AllocationConserves(tds, Grosses(takes));
      forall i | 0 <= i < |takes|
        ensures 0 <= Allocation(tds, Grosses(takes))[i] <= takes[i].amount
      {
        AllocationWithinWeights(tds, Grosses(takes), i);
      }
    }
  }

  lemma NothingWithheld(takes: seq<Due>)
    ensures Sum(TdsShares(0, takes)) == 0
    ensures forall i :: 0 <= i < |takes| ==> TdsShares(0, takes)[i] == 0
  {
    SumOfZeros(TdsShares(0, takes));
  }

  lemma {:induction false} SumOfZeros(s: seq<int>)
    requires forall i :: 0 <= i < |s| ==> s[i] == 0
    ensures Sum(s) == 0
  {
    if s != [] {
      SumOfZeros(s[..|s| - 1]);
    }
  }

  lemma {:induction false} PairTotals(r: BrokerId, take: Due, share: int, q: Query)
    requires 0 <= share <= take.amount
    ensures Total(PairFor(r, take, share), q) ==
            Weight(q, Entry(r, take.booking, Payment, -(take.amount - share), None))
            + Weight(q, Entry(r, take.booking, TdsWithheld, -share, None))
  {
    var pay, tax := Entry(r, take.booking, Payment, -(take.amount - share), None),
                    Entry(r, take.booking, TdsWithheld, -share, None);
    TotalAppend([], pay, q);
    assert [] + [pay] == [pay];
    TotalAppend([pay], tax, q);
  }

  /** Per booking: the entries take out exactly the gross share, as cash plus tax, and touch nothing else. */
  lemma {:induction false} PostingsPerBooking(r: BrokerId, takes: seq<Due>, shares: seq<int>, b: BookingId)
    requires |shares| == |takes|
    requires forall i :: 0 <= i < |takes| ==> 0 <= shares[i] <= takes[i].amount
    ensures var posted := Postings(r, takes, shares);
            && Total(posted, Cash(b)) + Total(posted, Tds(b)) == Gross(takes, b)
            && Total(posted, Cash(b)) >= 0 && Total(posted, Tds(b)) >= 0
            && Total(posted, Accrued(b)) == 0 && Total(posted, Clawed(b)) == 0
            && Total(posted, Outstanding(b)) == -Gross(takes, b)
  {
    hide PairFor, Weight;
    if takes != [] {
      var n := |takes| - 1;
      var front, pair := Postings(r, takes[..n], shares[..n]), PairFor(r, takes[n], shares[n]);
      PostingsPerBooking(r, takes[..n], shares[..n], b);
      ConcatTotals(front, pair, b);
      PairPerBooking(r, takes[n], shares[n], b);
      assert takes == takes[..n] + [takes[n]];
      GrossConcat(takes[..n], [takes[n]], b);
      GrossOfOne(takes[n], b);
    }
  }

  lemma ConcatTotals(s: seq<Entry>, t: seq<Entry>, b: BookingId)
    ensures Total(s + t, Cash(b)) == Total(s, Cash(b)) + Total(t, Cash(b))
    ensures Total(s + t, Tds(b)) == Total(s, Tds(b)) + Total(t, Tds(b))
    ensures Total(s + t, Accrued(b)) == Total(s, Accrued(b)) + Total(t, Accrued(b))
    ensures Total(s + t, Clawed(b)) == Total(s, Clawed(b)) + Total(t, Clawed(b))
    ensures Total(s + t, Outstanding(b)) == Total(s, Outstanding(b)) + Total(t, Outstanding(b))
  {
    TotalConcat(s, t, Cash(b));
    TotalConcat(s, t, Tds(b));
    TotalConcat(s, t, Accrued(b));
    TotalConcat(s, t, Clawed(b));
    TotalConcat(s, t, Outstanding(b));
  }

  lemma PairPerBooking(r: BrokerId, take: Due, share: int, b: BookingId)
    requires 0 <= share <= take.amount
    ensures var pair, g := PairFor(r, take, share), if take.booking == b then take.amount else 0;
            && Total(pair, Cash(b)) == (if take.booking == b then take.amount - share else 0)
            && Total(pair, Tds(b)) == (if take.booking == b then share else 0)
            && Total(pair, Accrued(b)) == 0 && Total(pair, Clawed(b)) == 0
            && Total(pair, Outstanding(b)) == -g
  {
    hide PairFor, Total;
    PairTotals(r, take, share, Cash(b));
    PairTotals(r, take, share, Tds(b));
    PairTotals(r, take, share, Accrued(b));
    PairTotals(r, take, share, Clawed(b));
    PairTotals(r, take, share, Outstanding(b));
  }

  /** Per broker: the payee's balance falls by the gross sum, of which the shares are withheld. */
  lemma {:induction false} PostingsPerBroker(r: BrokerId, takes: seq<Due>, shares: seq<int>, other: BrokerId)
    requires |shares| == |takes|
    requires forall i :: 0 <= i < |takes| ==> 0 <= shares[i] <= takes[i].amount
    ensures var posted := Postings(r, takes, shares);
            && Total(posted, BrokerBalance(other)) == (if other == r then -DueSum(takes) else 0)
            && Total(posted, Disbursed(other)) == (if other == r then DueSum(takes) else 0)
            && Total(posted, Withheld(other)) == (if other == r then Sum(shares) else 0)
  {
    hide PairFor, Weight;
    if takes != [] {
      var n := |takes| - 1;
      var front, pair := Postings(r, takes[..n], shares[..n]), PairFor(r, takes[n], shares[n]);
      PostingsPerBroker(r, takes[..n], shares[..n], other);
      BrokerTotals(front, pair, other);
      PairPerBroker(r, takes[n], shares[n], other);
      assert takes == takes[..n] + [takes[n]];
      DueSumConcat(takes[..n], [takes[n]]);
      assert [takes[n]][1..] == [];
    }
  }

  lemma BrokerTotals(s: seq<Entry>, t: seq<Entry>, r: BrokerId)
    ensures Total(s + t, BrokerBalance(r)) == Total(s, BrokerBalance(r)) + Total(t, BrokerBalance(r))
    ensures Total(s + t, Disbursed(r)) == Total(s, Disbursed(r)) + Total(t, Disbursed(r))
    ensures Total(s + t, Withheld(r)) == Total(s, Withheld(r)) + Total(t, Withheld(r))
  {
    TotalConcat(s, t, BrokerBalance(r));
    TotalConcat(s, t, Disbursed(r));
    TotalConcat(s, t, Withheld(r));
  }

  lemma PairPerBroker(r: BrokerId, take: Due, share: int, other: BrokerId)
    requires 0 <= share <= take.amount
    ensures var pair := PairFor(r, take, share);
            && Total(pair, BrokerBalance(other)) == (if other == r then -take.amount else 0)
            && Total(pair, Disbursed(other)) == (if other == r then take.amount else 0)
            && Total(pair, Withheld(other)) == (if other == r then share else 0)
  {
    hide PairFor, Total;
    PairTotals(r, take, share, BrokerBalance(other));
    PairTotals(r, take, share, Disbursed(other));
    PairTotals(r, take, share, Withheld(other));
  }

  lemma {:induction false} PostingsOwned(bookings: map<BookingId, Booking>, r: BrokerId, takes: seq<Due>, shares: seq<int>)
    requires |shares| == |takes|
    requires forall i :: 0 <= i < |takes| ==>
               takes[i].booking in bookings && bookings[takes[i].booking].broker == Some(r)
    ensures OwnBroker(bookings, Postings(r, takes, shares))
  {
    if takes != [] {
      var n := |takes| - 1;
      PostingsOwned(bookings, r, takes[..n], shares[..n]);
      assert takes[..n] + [takes[n]] == takes;
    }
  }

  // ---------------------------------------------------------------- a successful payment

  ghost predicate ValidTdsRule(rule: Option<TdsRule>) {
    rule.Some? ==> 0 <= rule.value.basisPoints <= BASIS_POINTS
  }

  lemma TdsWithin(amount: int, rule: Option<TdsRule>)
    requires amount >= 0 && ValidTdsRule(rule)
    ensures 0 <= TdsOn(amount, rule) <= amount
  {
    if rule.Some? {
      PercentOfWithin(amount, rule.value.basisPoints);
    }
  }

  /** Exactly when a payment goes through: approved, positive, and within the positive outstandings. */
  lemma PaySucceedsIff(l: Ledger, id: PaymentId, rule: Option<TdsRule>)
    ensures Pay(l, id, rule).Success? <==>
            && id < |l.payments|
            && l.payments[id].status == Approved
            && 1 <= l.payments[id].amount <= DueSum(Dues(l.entries, l.payments[id].broker))
  {
    if id < |l.payments| {
      var p := l.payments[id];
      PositiveDues(Seen(l.entries, p.broker), l.entries, p.broker);
      TakesWhatFits(Dues(l.entries, p.broker), p.amount);
      DueSumPositive(Dues(l.entries, p.broker));
    }
  }

  /** The facts about the shares that everything else about a payment builds on. */
  lemma PayShares(l: Ledger, id: PaymentId, rule: Option<TdsRule>)
    requires PayProblem(l, id) == None && ValidTdsRule(rule)
    ensures var p := l.payments[id];
            var takes := TakesFor(l.entries, p);
            && takes != [] && AllPositive(takes) && DueSum(takes) == p.amount
            && Sum(Grosses(takes)) > 0
            && var shares := TdsShares(TdsOn(p.amount, rule), takes);
               && Sum(shares) == TdsOn(p.amount, rule)
               && (forall i :: 0 <= i < |takes| ==> 0 <= shares[i] <= takes[i].amount)
               && PayEntries(l, id, rule) == Postings(p.broker, takes, shares)
  {
    PaySucceedsIff(l, id, rule);
    var p := l.payments[id];
    PositiveDues(Seen(l.entries, p.broker), l.entries, p.broker);
    TakesWhatFits(Dues(l.entries, p.broker), p.amount);
    TakesOldestFirst(Dues(l.entries, p.broker), p.amount);
    TdsWithin(p.amount, rule);
    TdsSharesFit(TdsOn(p.amount, rule), TakesFor(l.entries, p));
  }

  /** The tax on a payment: none without a rule or below its threshold, else the rate of the amount, rounded half up. */
  ghost predicate IsTax(amount: int, rule: Option<TdsRule>, w: int) {
    if rule.None? || amount < rule.value.threshold then w == 0
    else IsHalfUp(amount * rule.value.basisPoints, 10000, w)
  }

  lemma TaxIs(amount: int, rule: Option<TdsRule>)
    ensures IsTax(amount, rule, TdsOn(amount, rule))
  {
    hide IsHalfUp;
  }

  /** A payment posts exactly its amount, of which exactly the tax is withheld. */
  lemma PayPostsExactly(l: Ledger, id: PaymentId, rule: Option<TdsRule>)
    requires PayProblem(l, id) == None && ValidTdsRule(rule)
    ensures var p, after := l.payments[id], Pay(l, id, rule).value;
            && Total(after.entries, BrokerBalance(p.broker)) == Total(l.entries, BrokerBalance(p.broker)) - p.amount
            && IsTax(p.amount, rule, Total(after.entries, Withheld(p.broker)) - Total(l.entries, Withheld(p.broker)))
            && after.payments == l.payments[id := PaymentRow(p.broker, p.amount, Paid)]
  {
    hide PayEntries, Postings, TdsOn, TdsShares, Takes, Dues, Total, Grosses, Sum, DueSum, IsTax;
    var p, posted := l.payments[id], PayEntries(l, id, rule);
    TaxIs(p.amount, rule);
    PayShares(l, id, rule);
    var takes := TakesFor(l.entries, p);
    PostingsPerBroker(p.broker, takes, TdsShares(TdsOn(p.amount, rule), takes), p.broker);
    TotalConcat(l.entries, posted, BrokerBalance(p.broker));
    TotalConcat(l.entries, posted, Withheld(p.broker));
  }

  /** Per booking, a payment moves its gross share from outstanding to cash and tax, never below zero. */
  lemma PayPerBooking(bookings: map<BookingId, Booking>, l: Ledger, id: PaymentId, rule: Option<TdsRule>, b: BookingId)
    requires OwnBroker(bookings, l.entries)
    requires PayProblem(l, id) == None && ValidTdsRule(rule)
    ensures var posted, g := PayEntries(l, id, rule), Gross(TakesFor(l.entries, l.payments[id]), b);
            && Total(posted, Cash(b)) + Total(posted, Tds(b)) == g
            && Total(posted, Cash(b)) >= 0 && Total(posted, Tds(b)) >= 0
            && Total(posted, Accrued(b)) == 0 && Total(posted, Clawed(b)) == 0
            && Total(posted, Outstanding(b)) == -g
            && g >= 0 && (g > 0 ==> Total(l.entries, Outstanding(b)) - g >= 0)
  {
    var p := l.payments[id];
    PayShares(l, id, rule);
    var takes := TakesFor(l.entries, p);
    PostingsPerBooking(p.broker, takes, TdsShares(TdsOn(p.amount, rule), takes), b);
    TakenWithinOutstanding(bookings, l.entries, p, b);
  }

  /** All bookings in front of the last one touched are settled in full. */
  lemma PaySettlesOldestFirst(bookings: map<BookingId, Booking>, l: Ledger, id: PaymentId, rule: Option<TdsRule>, i: nat)
    requires OwnBroker(bookings, l.entries)
    requires PayProblem(l, id) == None && ValidTdsRule(rule)
    requires i < |TakesFor(l.entries, l.payments[id])| - 1
    ensures |TakesFor(l.entries, l.payments[id])| <= |Dues(l.entries, l.payments[id].broker)|
    ensures var b := Dues(l.entries, l.payments[id].broker)[i].booking;
            Total(Pay(l, id, rule).value.entries, Outstanding(b)) == 0
  {
    var p := l.payments[id];
    var dues, takes := Dues(l.entries, p.broker), TakesFor(l.entries, p);
    PositiveDues(Seen(l.entries, p.broker), l.entries, p.broker);
    TakesOldestFirst(dues, p.amount);
    var b := dues[i].booking;
    PayPerBooking(bookings, l, id, rule, b);
    TotalConcat(l.entries, PayEntries(l, id, rule), Outstanding(b));
    GrossAtLeast(takes, i, b);
    SeenDistinct(l.entries, p.broker);
    GrossOfPositive(Seen(l.entries, p.broker), l.entries, p.broker, b);
    GrossAtLeast(dues, i, b);
    BrokerShare(bookings, l.entries, p.broker, b);
    DueIsTotal(Seen(l.entries, p.broker), l.entries, p.broker, i);
  }

  lemma {:induction false} GrossAtLeast(dues: seq<Due>, i: nat, b: BookingId)
    requires AllPositive(dues) && i < |dues| && dues[i].booking == b
    ensures Gross(dues, b) >= dues[i].amount
  {
    GrossNonNegative(dues[1..], b);
    if i > 0 {
      GrossAtLeast(dues[1..], i - 1, b);
    }
  }

  lemma {:induction false} DueIsTotal(seen: seq<BookingId>, entries: seq<Entry>, r: BrokerId, i: nat)
    requires i < |Positive(seen, entries, r)|
    ensures var d := Positive(seen, entries, r)[i]; d.amount == Total(entries, BrokerBooking(r, d.booking))
  {
    if i < |Positive(seen[..|seen| - 1], entries, r)| {
      DueIsTotal(seen[..|seen| - 1], entries, r, i);
    }
  }

  // ---------------------------------------------------------------- what a request checks and what a payment checks

  /** A broker's totals over some bookings. */
  function TotalOver(seen: seq<BookingId>, entries: seq<Entry>, r: BrokerId): int {
    if seen == [] then 0
    else TotalOver(seen[..|seen| - 1], entries, r) + Total(entries, BrokerBooking(r, seen[|seen| - 1]))
  }

  /** What the broker owes back on bookings with a negative total. */
  function OwedBackOver(seen: seq<BookingId>, entries: seq<Entry>, r: BrokerId): nat {
    if seen == [] then 0
    else
      var total := Total(entries, BrokerBooking(r, seen[|seen| - 1]));
      OwedBackOver(seen[..|seen| - 1], entries, r) + if total < 0 then -total else 0
  }

  function OwedBack(entries: seq<Entry>, r: BrokerId): nat {
    OwedBackOver(Seen(entries, r), entries, r)
  }

  /** One more entry changes the totals of its own booking only. */
  lemma {:induction false} TotalOverAppend(seen: seq<BookingId>, entries: seq<Entry>, e: Entry, r: BrokerId)
    requires DistinctBookings(seen)
    ensures TotalOver(seen, entries + [e], r)
         == TotalOver(seen, entries, r) + if e.broker == r && e.booking in seen then e.amount else 0
  {
    if seen != [] {
      var n := |seen| - 1;
      TotalOverAppend(seen[..n], entries, e, r);
      TotalAppend(entries, e, BrokerBooking(r, seen[n]));
      assert e.booking in seen <==> e.booking in seen[..n] || e.booking == seen[n];
    }
  }

  /** The balance a request is checked against is the sum of the totals a payment looks at. */
  lemma {:induction false} BalanceOverSeen(entries: seq<Entry>, r: BrokerId)
    ensures Total(entries, BrokerBalance(r)) == TotalOver(Seen(entries, r), entries, r)
  {
    if entries != [] {
      var n := |entries| - 1;
      var front, e := entries[..n], entries[n];
      BalanceOverSeen(front, r);
      SeenDistinct(front, r);
      assert entries == front + [e];
      TotalOverAppend(Seen(front, r), front, e, r);
      if e.broker == r && e.booking !in Seen(front, r) {
        UnmentionedTotal(front, r, e.booking);
        TotalAppend(front, e, BrokerBooking(r, e.booking));
      }
    }
  }

  lemma {:induction false} DuesOver(seen: seq<BookingId>, entries: seq<Entry>, r: BrokerId)
    ensures DueSum(Positive(seen, entries, r)) == TotalOver(seen, entries, r) + OwedBackOver(seen, entries, r)
  {
    hide Total;
    if seen != [] {
      var n := |seen| - 1;
      DuesOver(seen[..n], entries, r);
      var d := Due(seen[n], Total(entries, BrokerBooking(r, seen[n])));
      DueSumConcat(Positive(seen[..n], entries, r), [d]);
      assert [d][1..] == [];
    }
  }

  /** The dues exceed the net balance by what is owed back on other bookings: a payment may take more than a request. */
  lemma DuesAndBalance(entries: seq<Entry>, r: BrokerId)
    ensures DueSum(Dues(entries, r)) == Total(entries, BrokerBalance(r)) + OwedBack(entries, r)
  {
    BalanceOverSeen(entries, r);
    DuesOver(Seen(entries, r), entries, r);
  }

  /** An accepted request can be approved and paid, as long as no entry has been posted since. */
  lemma AcceptedRequestIsPayable(l: Ledger, r: BrokerId, amount: int, rule: Option<TdsRule>)
    requires amount >= 1 && Request(l, r, amount).Success?
    ensures var requested, id := Request(l, r, amount).value, |l.payments|;
            var approved := Decide(requested, id, Approved);
            approved.Success? && Pay(approved.value, id, rule).Success?
  {
    hide Total, Dues, Pay;
    DuesAndBalance(l.entries, r);
    PaySucceedsIff(Decide(Request(l, r, amount).value, |l.payments|, Approved).value, |l.payments|, rule);
  }

  /**
   * A payment looks at positive totals only, so it can overdraw: it leaves the broker a balance that is not
   * negative if and only if its amount and what the broker owes back together fit into the dues.
   */
  lemma PayOverdrawsIff(l: Ledger, id: PaymentId, rule: Option<TdsRule>)
    requires PayProblem(l, id) == None && ValidTdsRule(rule)
    ensures var p, after := l.payments[id], Pay(l, id, rule).value;
            Total(after.entries, BrokerBalance(p.broker)) >= 0 <==>
            p.amount + OwedBack(l.entries, p.broker) <= DueSum(Dues(l.entries, p.broker))
  {
    hide Total, Dues, PayEntries, Takes;
    PayPostsExactly(l, id, rule);
    DuesAndBalance(l.entries, l.payments[id].broker);
  }

  // ---------------------------------------------------------------- which entries, and why none

  ghost predicate DistinctDues(dues: seq<Due>) {
    forall i, j :: 0 <= i < j < |dues| ==> dues[i].booking != dues[j].booking
  }

  lemma {:induction false} PositiveDistinct(seen: seq<BookingId>, entries: seq<Entry>, r: BrokerId)
    requires DistinctBookings(seen)
    ensures DistinctDues(Positive(seen, entries, r))
    ensures forall i :: 0 <= i < |Positive(seen, entries, r)| ==> Positive(seen, entries, r)[i].booking in seen
  {
    if seen != [] {
      PositiveDistinct(seen[..|seen| - 1], entries, r);
    }
  }

  /** Each booking a payment touches gets its own share of the tax, and the rest of its gross share in cash. */
  lemma {:induction false} PostingsAt(r: BrokerId, takes: seq<Due>, shares: seq<int>, i: nat)
    requires |shares| == |takes| && i < |takes| && DistinctDues(takes)
    requires forall k :: 0 <= k < |takes| ==> 0 <= shares[k] <= takes[k].amount
    ensures Total(Postings(r, takes, shares), Tds(takes[i].booking)) == shares[i]
    ensures Total(Postings(r, takes, shares), Cash(takes[i].booking)) == takes[i].amount - shares[i]
  {
    hide PairFor, Weight;
    var n, b := |takes| - 1, takes[i].booking;
    ConcatTotals(Postings(r, takes[..n], shares[..n]), PairFor(r, takes[n], shares[n]), b);
    PairPerBooking(r, takes[n], shares[n], b);
    if i < n {
      PostingsAt(r, takes[..n], shares[..n], i);
    } else {
      NotTaken(takes[..n], b);
      PostingsPerBooking(r, takes[..n], shares[..n], b);
    }
  }

  lemma {:induction false} NotTaken(takes: seq<Due>, b: BookingId)
    requires forall i :: 0 <= i < |takes| ==> takes[i].booking != b
    ensures Gross(takes, b) == 0
  {
    if takes != [] {
      NotTaken(takes[1..], b);
    }
  }

  /**
   * A payment splits its tax over the bookings it touches by largest remainder in proportion to what it takes
   * from them, and posts each booking's share as tax and the rest as cash.
   */
  lemma PaySplitsTax(l: Ledger, id: PaymentId, rule: Option<TdsRule>) returns (w: int, shares: seq<int>)
    requires PayProblem(l, id) == None && ValidTdsRule(rule)
    ensures var p := l.payments[id];
            var takes := TakesFor(l.entries, p);
            && IsTax(p.amount, rule, w) && |shares| == |takes|
            && Sum(Grosses(takes)) == p.amount > 0
            && (w > 0 ==> LargestRemainder(w, Grosses(takes), shares))
            && (w == 0 ==> forall i :: 0 <= i < |takes| ==> shares[i] == 0)
            && w >= 0
            && forall i :: 0 <= i < |takes| ==>
                 && Total(PayEntries(l, id, rule), Tds(takes[i].booking)) == shares[i]
                 && Total(PayEntries(l, id, rule), Cash(takes[i].booking)) == takes[i].amount - shares[i]
  {
    var p := l.payments[id];
    var takes := TakesFor(l.entries, p);
    PayShares(l, id, rule);
    TdsWithin(p.amount, rule);
    DueSumIsGrossSum(takes);
    w, shares := TdsOn(p.amount, rule), TdsShares(TdsOn(p.amount, rule), takes);
    if w > 0 {
      AllocationIsLargestRemainder(w, Grosses(takes));
    }
    TakesDistinct(l.entries, p);
    forall i | 0 <= i < |takes|
      ensures Total(PayEntries(l, id, rule), Tds(takes[i].booking)) == shares[i]
      ensures Total(PayEntries(l, id, rule), Cash(takes[i].booking)) == takes[i].amount - shares[i]
    {
      PostingsAt(p.broker, takes, shares, i);
    }
  }

  lemma TakesDistinct(entries: seq<Entry>, p: PaymentRow)
    ensures DistinctDues(TakesFor(entries, p))
  {
    SeenDistinct(entries, p.broker);
    PositiveDistinct(Seen(entries, p.broker), entries, p.broker);
    PositiveDues(Seen(entries, p.broker), entries, p.broker);
    TakesOldestFirst(Dues(entries, p.broker), p.amount);
  }

  /** Why a payment is refused: unknown, not approved, nothing due or nothing asked, or more than is due. */
  lemma PayRefusals(l: Ledger, id: PaymentId, rule: Option<TdsRule>)
    ensures id >= |l.payments| ==> Pay(l, id, rule) == Failure(NotFound)
    ensures id < |l.payments| && l.payments[id].status != Approved ==>
              Pay(l, id, rule) == Failure(WrongStatus(l.payments[id].status))
    ensures id < |l.payments| && l.payments[id].status == Approved ==>
              var amount, due := l.payments[id].amount, DueSum(Dues(l.entries, l.payments[id].broker));
              && (amount <= 0 || due == 0 ==> Pay(l, id, rule) == Failure(NothingOutstanding))
              && (amount > due > 0 ==> Pay(l, id, rule) == Failure(ExceedsOutstanding))
  {
    if id < |l.payments| {
      var p := l.payments[id];
      var dues := Dues(l.entries, p.broker);
      PositiveDues(Seen(l.entries, p.broker), l.entries, p.broker);
      TakesWhatFits(dues, p.amount);
      DueSumPositive(dues);
    }
  }
}
