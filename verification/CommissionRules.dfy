/**
 * What a broker earns on a booking: a flat amount, a flat percentage, or a percentage picked from
 * contiguous slabs of the basis amount.
 */
module CommissionRules {
  import opened Common
  import opened Money
  import opened Rounding

  /** `order` is the slab's position, `to` is absent for an unbounded top, `rate` is in basis points. */
  datatype Slab = Slab(order: int, from: int, to: Option<int>, rate: int)

  datatype SlabError =
    | NoSlabs
    | FirstNotAtZero
    | UnboundedInside(order: int)
    | NotContiguous(order: int)
    | LastIsBounded

  // ---------------------------------------------------------------- sorting by position

  ghost predicate SortedByOrder(s: seq<Slab>) {
    forall i, j :: 0 <= i < j < |s| ==> s[i].order <= s[j].order
  }

  /** The host's stable sort: an element goes before later ones of the same position. */
  function InsertSlab(x: Slab, s: seq<Slab>): (r: seq<Slab>)
    requires SortedByOrder(s)
    ensures SortedByOrder(r) && |r| == |s| + 1
    ensures forall y :: y in r <==> y == x || y in s
  {
    if s == [] then [x]
    else
      assert s == [s[0]] + s[1..];
      if x.order <= s[0].order then [x] + s
      else
        var rest := InsertSlab(x, s[1..]);
        assert forall y :: y in rest ==> s[0].order <= y.order;
        [s[0]] + rest
  }

  function SortSlabs(s: seq<Slab>): (r: seq<Slab>)
    ensures SortedByOrder(r) && |r| == |s|
    ensures forall y :: y in r <==> y in s
  {
    if s == [] then []
    else
      assert s == [s[0]] + s[1..];
      InsertSlab(s[0], SortSlabs(s[1..]))
  }

  lemma {:induction false} InsertPermutes(x: Slab, s: seq<Slab>)
    requires SortedByOrder(s)
    ensures multiset(InsertSlab(x, s)) == multiset{x} + multiset(s)
  {
    if s != [] {
      assert s == [s[0]] + s[1..];
      InsertPermutes(x, s[1..]);
    }
  }

  lemma {:induction false} SortPermutes(s: seq<Slab>)
    ensures multiset(SortSlabs(s)) == multiset(s)
  {
    if s != [] {
      assert s == [s[0]] + s[1..];
      SortPermutes(s[1..]);
      InsertPermutes(s[0], SortSlabs(s[1..]));
    }
  }

  function OfOrder(s: seq<Slab>, o: int): seq<Slab> {
    if s == [] then [] else (if s[0].order == o then [s[0]] else []) + OfOrder(s[1..], o)
  }

  lemma {:induction false} InsertStable(x: Slab, s: seq<Slab>, o: int)
    requires SortedByOrder(s)
    ensures OfOrder(InsertSlab(x, s), o) == (if x.order == o then [x] else []) + OfOrder(s, o)
  {
    if s != [] {
      assert s == [s[0]] + s[1..];
      InsertStable(x, s[1..], o);
    }
  }

  /** Slabs of the same position keep their order. */
  lemma {:induction false} SortStable(s: seq<Slab>, o: int)
    ensures OfOrder(SortSlabs(s), o) == OfOrder(s, o)
  {
    if s != [] {
      assert s == [s[0]] + s[1..];
      SortStable(s[1..], o);
      InsertStable(s[0], SortSlabs(s[1..]), o);
    }
  }

  // ---------------------------------------------------------------- contiguity

  /** Starts at zero, each slab ends where the next begins, and only the last is unbounded. */
  ghost predicate Contiguous(s: seq<Slab>) {
    && s != []
    && s[0].from == 0
    && (forall i :: 0 <= i < |s| - 1 ==> s[i].to == Some(s[i + 1].from))
    && s[|s| - 1].to == None
  }

  method ValidateSlabContiguity(slabs: seq<Slab>) returns (problem: Option<SlabError>)
    ensures problem == None <==> Contiguous(SortSlabs(slabs))
    ensures problem == Some(NoSlabs) <==> slabs == []
    ensures problem == Some(FirstNotAtZero) ==> SortSlabs(slabs)[0].from != 0
    ensures problem == Some(LastIsBounded) ==>
              var s := SortSlabs(slabs); Contiguous(s[..|s| - 1] + [s[|s| - 1].(to := None)])
    ensures forall o :: problem == Some(UnboundedInside(o)) ==>
              var s := SortSlabs(slabs); exists i :: 0 <= i < |s| - 1 && s[i].order == o && s[i].to == None
    ensures forall o :: problem == Some(NotContiguous(o)) ==>
              var s := SortSlabs(slabs);
              exists i :: 0 <= i < |s| - 1 && s[i].order == o && s[i].to.Some? && s[i].to != Some(s[i + 1].from)
  {
    if |slabs| == 0 {
      return Some(NoSlabs);
    }
    var sorted := SortSlabs(slabs);
    if sorted[0].from != 0 {
      return Some(FirstNotAtZero);
    }
    for i := 0 to |sorted| - 1
      invariant forall j :: 0 <= j < i ==> sorted[j].to == Some(sorted[j + 1].from)
    {
      if sorted[i].to == None {
        assert sorted[i].to != Some(sorted[i + 1].from);
        return Some(UnboundedInside(sorted[i].order));
      }
      if sorted[i].to != Some(sorted[i + 1].from) {
        return Some(NotContiguous(sorted[i].order));
      }
    }
    if sorted[|sorted| - 1].to != None {
      return Some(LastIsBounded);
    }
    return None;
  }

  // ---------------------------------------------------------------- matching

  /** Half-open: [from, to). */
  predicate Covers(s: Slab, amount: int) {
    s.from <= amount && (s.to == None || amount < s.to.value)
  }

  function FindCovering(s: seq<Slab>, amount: int): (r: Option<Slab>)
    ensures r.None? <==> forall i :: 0 <= i < |s| ==> !Covers(s[i], amount)
    ensures r.Some? ==> exists i :: 0 <= i < |s| && s[i] == r.value && Covers(s[i], amount)
                                    && forall j :: 0 <= j < i ==> !Covers(s[j], amount)
  {
    if s == [] then None
    else if Covers(s[0], amount) then Some(s[0])
    else
      var r := FindCovering(s[1..], amount);
      assert forall i :: 0 < i < |s| ==> s[i] == s[1..][i - 1];
      assert r.Some? ==> exists i :: 0 <= i < |s| && s[i] == r.value && Covers(s[i], amount)
                                     && forall j :: 0 <= j < i ==> !Covers(s[j], amount) by {
        if r.Some? {
          var k :| 0 <= k < |s[1..]| && s[1..][k] == r.value && Covers(s[1..][k], amount)
                   && forall j :: 0 <= j < k ==> !Covers(s[1..][j], amount);
          assert s[k + 1] == r.value;
        }
      }
      r
  }

  /** The matching slab, or nothing where the code throws. */
  function MatchCommissionSlab(amount: int, slabs: seq<Slab>): Option<Slab> {
    FindCovering(SortSlabs(slabs), amount)
  }

  /** From a slab the amount reaches, the chain of boundaries leads to one that covers it. */
  lemma {:induction false} ChainCovers(s: seq<Slab>, i: nat, amount: int)
    requires Contiguous(s) && i < |s| && s[i].from <= amount
    ensures exists j :: i <= j < |s| && Covers(s[j], amount)
    decreases |s| - i
  {
    if !Covers(s[i], amount) {
      ChainCovers(s, i + 1, amount);
    }
  }

  /** A validated list matches every non-negative amount, whatever its inner boundaries are. */
  lemma ValidatedSlabsMatch(slabs: seq<Slab>, amount: int)
    requires Contiguous(SortSlabs(slabs)) && amount >= 0
    ensures MatchCommissionSlab(amount, slabs).Some?
    ensures Covers(MatchCommissionSlab(amount, slabs).value, amount)
    ensures MatchCommissionSlab(amount, slabs).value in slabs
  {
    ChainCovers(SortSlabs(slabs), 0, amount);
  }

  /** For a contiguous list: every bounded slab is non-empty. */
  ghost predicate Increasing(s: seq<Slab>) {
    forall k :: 0 <= k < |s| - 1 ==> s[k].from < s[k + 1].from
  }

  lemma {:induction false} BoundariesIncrease(s: seq<Slab>, i: nat, j: nat)
    requires Contiguous(s) && Increasing(s) && i < j < |s|
    ensures s[i].to.Some? && s[i].from < s[i].to.value <= s[j].from
    decreases j - i
  {
    assert s[i].to == Some(s[i + 1].from) && s[i].from < s[i + 1].from;
    if i + 1 < j {
      BoundariesIncrease(s, i + 1, j);
    }
  }

  /** With non-empty slabs the match is unique, and a boundary amount belongs to the higher slab. */
  lemma MatchIsUnique(slabs: seq<Slab>, amount: int, i: nat)
    requires Contiguous(SortSlabs(slabs)) && Increasing(SortSlabs(slabs)) && amount >= 0 && i < |slabs|
    ensures Covers(SortSlabs(slabs)[i], amount) ==>
              MatchCommissionSlab(amount, slabs) == Some(SortSlabs(slabs)[i])
    ensures amount == SortSlabs(slabs)[i].from ==>
              MatchCommissionSlab(amount, slabs) == Some(SortSlabs(slabs)[i])
  {
    hide SortSlabs, FindCovering;
    var s := SortSlabs(slabs);
    if Covers(s[i], amount) || amount == s[i].from {
      OneCovers(s, amount, i);
      ChainCovers(s, 0, amount);
      assert FindCovering(s, amount).Some?;
    }
  }

  lemma OneCovers(s: seq<Slab>, amount: int, i: nat)
    requires Contiguous(s) && Increasing(s) && i < |s|
    requires Covers(s[i], amount) || amount == s[i].from
    ensures forall k :: 0 <= k < |s| && Covers(s[k], amount) ==> k == i
  {
    forall k | 0 <= k < |s| && Covers(s[k], amount)
      ensures k == i
    {
      if k < i {
        BoundariesIncrease(s, k, i);
      } else if i < k {
        BoundariesIncrease(s, i, k);
      }
    }
  }

  // ---------------------------------------------------------------- the commission of a booking

  datatype Terms =
    | FlatAmount(paise: Option<int>)
    | FlatPercent(basisPoints: Option<int>)
    | BySlab(slabs: seq<Slab>)

  /** Nothing where no slab matches and the code throws. */
  function ComputeCommissionPaise(basis: int, terms: Terms): Option<int> {
    match terms
    case FlatAmount(paise) => Some(if paise.Some? then paise.value else 0)
    case FlatPercent(bp) => Some(PercentOf(basis, if bp.Some? then bp.value else 0))
    case BySlab(slabs) =>
      var m := MatchCommissionSlab(basis, slabs);
      if m.None? then None else Some(PercentOf(basis, m.value.rate))
  }

  /** The slab at position i, in sorted order, is the first whose half-open range holds the amount. */
  ghost predicate FirstHolding(sorted: seq<Slab>, i: nat, amount: int)
    requires i < |sorted|
  {
    && sorted[i].from <= amount && (sorted[i].to == None || amount < sorted[i].to.value)
    && forall j :: 0 <= j < i ==> amount < sorted[j].from || (sorted[j].to.Some? && sorted[j].to.value <= amount)
  }

  /** What is due on a price, as a number: the amount, or the percentage rounded half up, ties away from zero. */
  ghost predicate IsCommission(basis: int, terms: Terms, c: int) {
    match terms
    case FlatAmount(None) => c == 0
    case FlatAmount(Some(paise)) => c == paise
    case FlatPercent(None) => c == 0
    case FlatPercent(Some(bp)) => IsHalfUp(basis * bp, 10000, c)
    case BySlab(slabs) =>
      var sorted := SortSlabs(slabs);
      exists i :: 0 <= i < |sorted| && FirstHolding(sorted, i, basis) && IsHalfUp(basis * sorted[i].rate, 10000, c)
  }

  lemma PercentIs(basis: int, bp: int, c: int)
    ensures PercentOf(basis, bp) == c <==> IsHalfUp(basis * bp, 10000, c)
    ensures PercentOf(basis, 0) == c <==> c == 0
  {
    if IsHalfUp(basis * bp, 10000, c) {
      HalfUpUnique(basis * bp, 10000, c, PercentOf(basis, bp));
    }
    HalfUpUnique(basis * 0, 10000, 0, PercentOf(basis, 0));
  }

  lemma FindsFirst(sorted: seq<Slab>, amount: int)
    ensures forall i :: 0 <= i < |sorted| && FirstHolding(sorted, i, amount) ==> FindCovering(sorted, amount) == Some(sorted[i])
    ensures FindCovering(sorted, amount).Some? ==>
              exists i :: 0 <= i < |sorted| && FirstHolding(sorted, i, amount)
  {
    hide FindCovering;
    var r := FindCovering(sorted, amount);
    if r.Some? {
      var k :| 0 <= k < |sorted| && sorted[k] == r.value && Covers(sorted[k], amount)
               && forall j :: 0 <= j < k ==> !Covers(sorted[j], amount);
      assert FirstHolding(sorted, k, amount);
      forall i | 0 <= i < |sorted| && FirstHolding(sorted, i, amount)
        ensures i == k
      {
        assert Covers(sorted[i], amount);
      }
    } else {
      assert forall i :: 0 <= i < |sorted| ==> !Covers(sorted[i], amount);
    }
  }

  /** The code computes that number, and throws exactly where there is none. */
  lemma CommissionIs(basis: int, terms: Terms, c: int)
    ensures ComputeCommissionPaise(basis, terms) == Some(c) <==> IsCommission(basis, terms, c)
  {
    hide PercentOf, FindCovering, SortSlabs, FirstHolding, IsHalfUp;
    match terms
    case FlatAmount(_) =>
    case FlatPercent(bp) =>
      PercentIs(basis, if bp.Some? then bp.value else 0, c);
    case BySlab(slabs) =>
      var sorted := SortSlabs(slabs);
      FindsFirst(sorted, basis);
      if exists i :: 0 <= i < |sorted| && FirstHolding(sorted, i, basis) {
        var i :| 0 <= i < |sorted| && FirstHolding(sorted, i, basis);
        PercentIs(basis, sorted[i].rate, c);
        assert forall j :: 0 <= j < |sorted| && FirstHolding(sorted, j, basis) ==> sorted[j] == sorted[i];
      }
  }

  /** With non-empty contiguous slabs the amount lies in one slab only, so the commission is that slab's percentage. */
  lemma CommissionOfTheOneSlab(basis: int, slabs: seq<Slab>, i: nat, c: int)
    requires Contiguous(SortSlabs(slabs)) && Increasing(SortSlabs(slabs)) && i < |slabs|
    requires SortSlabs(slabs)[i].from <= basis && (SortSlabs(slabs)[i].to == None || basis < SortSlabs(slabs)[i].to.value)
    ensures IsCommission(basis, BySlab(slabs), c) <==> IsHalfUp(basis * SortSlabs(slabs)[i].rate, 10000, c)
  {
    hide SortSlabs, IsHalfUp;
    var s := SortSlabs(slabs);
    OneCovers(s, basis, i);
    assert FirstHolding(s, i, basis) by {
      forall j | 0 <= j < i
        ensures !Covers(s[j], basis)
      {
      }
    }
    forall j | 0 <= j < |s| && FirstHolding(s, j, basis)
      ensures j == i
    {
      assert Covers(s[j], basis);
    }
  }

  /** What the input schemas and the slab validation let through. */
  ghost predicate ValidTerms(terms: Terms) {
    match terms
    case FlatAmount(paise) => paise.Some? ==> paise.value >= 0
    case FlatPercent(bp) => bp.Some? ==> 0 <= bp.value <= BASIS_POINTS
    case BySlab(slabs) =>
      Contiguous(SortSlabs(slabs)) && forall s :: s in slabs ==> 0 <= s.rate <= BASIS_POINTS
  }

  /** Valid terms always yield a commission; it is never negative, and a percentage never exceeds the price. */
  lemma CommissionWithin(basis: int, terms: Terms)
    requires basis >= 0 && ValidTerms(terms)
    ensures ComputeCommissionPaise(basis, terms).Some?
    ensures ComputeCommissionPaise(basis, terms).value >= 0
    ensures !terms.FlatAmount? ==> ComputeCommissionPaise(basis, terms).value <= basis
  {
    match terms
    case FlatAmount(_) =>
    case FlatPercent(bp) =>
      PercentOfWithin(basis, if bp.Some? then bp.value else 0);
    case BySlab(slabs) =>
      ValidatedSlabsMatch(slabs, basis);
      PercentOfWithin(basis, MatchCommissionSlab(basis, slabs).value.rate);
  }
}
