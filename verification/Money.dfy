/**
 * Integer paise arithmetic: rounding division, percentages in basis points, GST halves and the
 * largest-remainder split that never loses a paisa.
 */
module Money {
  import opened Common
  import opened Rounding

  // ---------------------------------------------------------------- rounding and percentages

  function RoundedDiv(numerator: int, denominator: int): (r: int)
    requires denominator != 0
    ensures IsHalfUp(numerator, denominator, r)
    decreases denominator < 0
  {
    if denominator < 0 then
      var r := RoundedDiv(-numerator, -denominator);
      HalfUpSigns(-numerator, -denominator, r);
      r
    else if numerator >= 0 then
      RoundedQuotient(numerator, denominator);
      (numerator + denominator / 2) / denominator
    else
      RoundedQuotient(-numerator, denominator);
      HalfUpSigns(-numerator, denominator, (-numerator + denominator / 2) / denominator);
      -((-numerator + denominator / 2) / denominator)
  }

  lemma RoundedQuotient(n: int, d: int)
    requires n >= 0 && d > 0
    ensures IsHalfUp(n, d, (n + d / 2) / d)
  {
    DivMod(n + d / 2, d);
    var q := (n + d / 2) / d;
    var x := q * d;
    assert x >= 0;
    assert 2 * Abs(x - n) <= d;
    assert x <= n ==> 2 * (n - x) < d;
  }

  const BASIS_POINTS := 10000

  function PercentOf(paise: int, basisPoints: int): (r: int)
    ensures IsHalfUp(paise * basisPoints, BASIS_POINTS, r)
  {
    RoundedDiv(paise * basisPoints, BASIS_POINTS)
  }

  /** A rate between 0 and 100% takes between nothing and everything. */
  lemma PercentOfWithin(paise: int, basisPoints: int)
    requires paise >= 0 && 0 <= basisPoints <= BASIS_POINTS
    ensures 0 <= PercentOf(paise, basisPoints) <= paise
  {
    assert 0 <= paise * basisPoints <= paise * BASIS_POINTS by {
      assert paise * BASIS_POINTS - paise * basisPoints == paise * (BASIS_POINTS - basisPoints);
    }
    HalfUpWithin(paise * basisPoints, BASIS_POINTS, PercentOf(paise, basisPoints), paise);
  }

  datatype GstComponents = GstComponents(cgst: int, sgst: int, igst: int)

  /** The rate is even: an odd one makes the halved basis points non-integral and the code throws. */
  function ComputeGst(base: int, rate: int, intraState: bool): GstComponents
    requires rate % 2 == 0
  {
    var half := PercentOf(base, rate / 2);
    if intraState then GstComponents(half, half, 0) else GstComponents(0, 0, PercentOf(base, rate))
  }

  function GstTotal(c: GstComponents): int {
    c.cgst + c.sgst + c.igst
  }

  /** Within a state half the rate goes to each of the two halves and nothing to IGST; across states all of it to IGST. */
  lemma GstIs(base: int, rate: int)
    requires rate % 2 == 0
    ensures var c := ComputeGst(base, rate, true); IsHalfUp(base * rate, 2 * 10000, c.cgst) && c.sgst == c.cgst && c.igst == 0
    ensures var c := ComputeGst(base, rate, false); c.cgst == 0 && c.sgst == 0 && IsHalfUp(base * rate, 10000, c.igst)
  {
    var h := rate / 2;
    assert base * rate == (base * h) * 2;
    HalfUpScaled(base * h, 10000, 2, PercentOf(base, h));
  }

  /** The intra-state and inter-state totals of one line differ by at most a paisa. */
  lemma GstSplitWithinOnePaisa(base: int, rate: int)
    requires rate % 2 == 0
    ensures Abs(GstTotal(ComputeGst(base, rate, true)) - GstTotal(ComputeGst(base, rate, false))) <= 1
  {
    var h := rate / 2;
    var x := base * h;
    assert base * rate == 2 * x;
    HalvesDiffer(x, PercentOf(base, h), PercentOf(base, rate));
  }

  lemma HalvesDiffer(x: int, half: int, full: int)
    requires IsHalfUp(x, BASIS_POINTS, half) && IsHalfUp(2 * x, BASIS_POINTS, full)
    ensures Abs(2 * half - full) <= 1
  {
  }

  // ---------------------------------------------------------------- allocate: specification

  datatype Slot = Slot(index: nat, remainder: int)

  datatype AllocateError = EmptyWeights | NonPositiveWeightSum

  /** BigInt division and remainder truncate toward zero. */
  function TruncDiv(n: int, d: int): int
    requires d > 0
  {
    if n >= 0 then n / d else -((-n) / d)
  }

  function TruncMod(n: int, d: int): int
    requires d > 0
  {
    n - TruncDiv(n, d) * d
  }

  /** The exact quota of bucket i is Quota / W; this is its whole part. */
  function Floors(total: int, weights: seq<int>): (f: seq<int>)
    requires Sum(weights) > 0
    ensures |f| == |weights|
  {
    seq(|weights|, i requires 0 <= i < |weights| => TruncDiv(total * weights[i], Sum(weights)))
  }

  function Slots(total: int, weights: seq<int>): (s: seq<Slot>)
    requires Sum(weights) > 0
    ensures |s| == |weights|
    ensures forall i :: 0 <= i < |s| ==> s[i].index == i
  {
    seq(|weights|, i requires 0 <= i < |weights| => Slot(i, TruncMod(total * weights[i], Sum(weights))))
  }

  /** Largest remainder first, ties to the lower index. */
  predicate Before(a: Slot, b: Slot) {
    a.remainder > b.remainder || (a.remainder == b.remainder && a.index < b.index)
  }

  ghost predicate Ordered(s: seq<Slot>) {
    forall i, j :: 0 <= i < j < |s| ==> Before(s[i], s[j])
  }

  ghost predicate DistinctIndices(s: seq<Slot>) {
    forall i, j :: 0 <= i < j < |s| ==> s[i].index != s[j].index
  }

  /** The host sort, whose comparator is a strict total order on slots of distinct index. */
  function InsertSlot(x: Slot, s: seq<Slot>): (r: seq<Slot>)
    requires Ordered(s)
    requires forall y :: y in s ==> y.index != x.index
    ensures Ordered(r) && |r| == |s| + 1
    ensures forall y :: y in r <==> y == x || y in s
  {
    if s == [] then [x]
    else if Before(x, s[0]) then
      assert s == [s[0]] + s[1..];
      [x] + s
    else
      var rest := InsertSlot(x, s[1..]);
      assert s == [s[0]] + s[1..];
      assert forall y :: y in rest ==> Before(s[0], y);
      [s[0]] + rest
  }

  function SortSlots(s: seq<Slot>): (r: seq<Slot>)
    requires DistinctIndices(s)
    ensures Ordered(r) && |r| == |s|
    ensures forall y :: y in r <==> y in s
  {
    if s == [] then []
    else
      assert s == [s[0]] + s[1..];
      InsertSlot(s[0], SortSlots(s[1..]))
  }

  /** One more unit to the buckets of the first n slots. */
  function AddUnits(shares: seq<int>, slots: seq<Slot>, n: nat): (r: seq<int>)
    requires n <= |slots|
    requires forall k :: 0 <= k < |slots| ==> slots[k].index < |shares|
    ensures |r| == |shares|
  {
    if n == 0 then shares
    else
      var r, i := AddUnits(shares, slots, n - 1), slots[n - 1].index;
      r[i := r[i] + 1]
  }

  function Leftover(total: int, weights: seq<int>): int
    requires Sum(weights) > 0
  {
    total - Sum(Floors(total, weights))
  }

  /** How many buckets the hand-out loop reaches. */
  function Handed(total: int, weights: seq<int>): (k: nat)
    requires Sum(weights) > 0
    ensures k <= |weights|
  {
    var l := Leftover(total, weights);
    if l <= 0 then 0 else if l < |weights| then l else |weights|
  }

  function Ranked(total: int, weights: seq<int>): (s: seq<Slot>)
    requires Sum(weights) > 0
    ensures |s| == |weights|
    ensures forall k :: 0 <= k < |s| ==> s[k].index < |weights|
  {
    var s := SortSlots(Slots(total, weights));
    assert forall k :: 0 <= k < |s| ==> s[k] in s;
    s
  }

  function Negated(s: seq<int>): (r: seq<int>)
    ensures |r| == |s|
  {
    seq(|s|, i requires 0 <= i < |s| => -s[i])
  }

  function Allocation(total: int, weights: seq<int>): (r: seq<int>)
    requires Sum(weights) > 0
    ensures |r| == |weights|
    decreases total < 0
  {
    if total < 0 then Negated(Allocation(-total, weights))
    else AddUnits(Floors(total, weights), Ranked(total, weights), Handed(total, weights))
  }

  // ---------------------------------------------------------------- allocate: the code

  lemma NextBucket(total: int, weights: seq<int>, i: nat)
    requires Sum(weights) > 0 && i < |weights|
    ensures Floors(total, weights)[..i + 1] == Floors(total, weights)[..i] + [TruncDiv(total * weights[i], Sum(weights))]
    ensures Slots(total, weights)[..i + 1]
         == Slots(total, weights)[..i] + [Slot(i, TruncMod(total * weights[i], Sum(weights)))]
  {
    hide Floors, Slots, TruncDiv, TruncMod;
    Bucket(total, weights, i);
    PrefixGrows(Floors(total, weights), i);
    PrefixGrows(Slots(total, weights), i);
  }

  lemma Bucket(total: int, weights: seq<int>, i: nat)
    requires Sum(weights) > 0 && i < |weights|
    ensures Floors(total, weights)[i] == TruncDiv(total * weights[i], Sum(weights))
    ensures Slots(total, weights)[i] == Slot(i, TruncMod(total * weights[i], Sum(weights)))
  {
    hide TruncDiv, TruncMod;
  }

  method Allocate(total: int, weights: seq<int>) returns (r: Result<seq<int>, AllocateError>)
    ensures r == Failure(EmptyWeights) <==> weights == []
    ensures r == Failure(NonPositiveWeightSum) <==> weights != [] && Sum(weights) <= 0
    ensures Sum(weights) > 0 ==> r == Success(Allocation(total, weights))
    decreases total < 0
  {
    hide TruncDiv, TruncMod, SortSlots, Floors, Slots;
    if |weights| == 0 {
      return Failure(EmptyWeights);
    }
    if total < 0 {
      var mirrored := Allocate(-total, weights);
      if mirrored.Success? {
        return Success(Negated(mirrored.value));
      }
      return mirrored;
    }
    var weightSum := Sum(weights);
    if weightSum <= 0 {
      return Failure(NonPositiveWeightSum);
    }
    var shares: seq<int>, remainders: seq<Slot>, handed := [], [], 0;
    for i := 0 to |weights|
      invariant shares == Floors(total, weights)[..i]
      invariant remainders == Slots(total, weights)[..i]
      invariant handed == Sum(shares)
    {
      var numerator := total * weights[i];
      NextBucket(total, weights, i);
      SumAppend(shares, TruncDiv(numerator, weightSum));
      shares := shares + [TruncDiv(numerator, weightSum)];
      remainders := remainders + [Slot(i, TruncMod(numerator, weightSum))];
      handed := handed + shares[i];
    }
    var leftover := total - handed;
    assert remainders == Slots(total, weights);
    remainders := SortSlots(remainders);
    ghost var floors, ranked := Floors(total, weights), Ranked(total, weights);
    assert shares == floors by { assert floors[..|weights|] == floors; }
    var i := 0;
    while i < |remainders| && leftover > 0
      invariant 0 <= i <= |remainders|
      invariant leftover == Leftover(total, weights) - i
      invariant i > 0 ==> leftover >= 0
      invariant |shares| == |weights|
      invariant shares == AddUnits(floors, ranked, i)
    {
      shares := shares[remainders[i].index := shares[remainders[i].index] + 1];
      leftover := leftover - 1;
      i := i + 1;
    }
    assert i == Handed(total, weights);
    return Success(shares);
  }

  // ---------------------------------------------------------------- allocate: what it promises

  predicate NonNegative(s: seq<int>) {
    forall i :: 0 <= i < |s| ==> s[i] >= 0
  }

  /** i outranks j for the spare units: its quota has the larger fraction, or the same and a lower index. */
  ghost predicate Outranks(total: int, weights: seq<int>, i: nat, j: nat)
    requires i < |weights| && j < |weights| && Sum(weights) > 0
  {
    var ri, rj := (total * weights[i]) % Sum(weights), (total * weights[j]) % Sum(weights);
    ri > rj || (ri == rj && i < j)
  }

  /** The largest-remainder split, said without an algorithm. */
  ghost predicate LargestRemainder(total: int, weights: seq<int>, shares: seq<int>)
    requires Sum(weights) > 0
  {
    var w := Sum(weights);
    && |shares| == |weights|
    && Sum(shares) == total
    && (forall i :: 0 <= i < |weights| ==>
          shares[i] == (total * weights[i]) / w || shares[i] == (total * weights[i]) / w + 1)
    && (forall i, j :: 0 <= i < |weights| && 0 <= j < |weights| && Outranks(total, weights, i, j)
                       && shares[j] == (total * weights[j]) / w + 1 ==>
          shares[i] == (total * weights[i]) / w + 1)
  }

  lemma {:induction false} AddUnitsSum(shares: seq<int>, slots: seq<Slot>, n: nat)
    requires n <= |slots|
    requires forall k :: 0 <= k < |slots| ==> slots[k].index < |shares|
    ensures Sum(AddUnits(shares, slots, n)) == Sum(shares) + n
  {
    if n > 0 {
      AddUnitsSum(shares, slots, n - 1);
      var before, i := AddUnits(shares, slots, n - 1), slots[n - 1].index;
      SumUpdate(before, i, before[i] + 1);
    }
  }

  lemma {:induction false} AddUnitsAt(shares: seq<int>, slots: seq<Slot>, n: nat, k: nat)
    requires n <= |slots| && k < |slots|
    requires forall j :: 0 <= j < |slots| ==> slots[j].index < |shares|
    requires DistinctIndices(slots)
    ensures AddUnits(shares, slots, n)[slots[k].index] == shares[slots[k].index] + if k < n then 1 else 0
  {
    if n > 0 {
      AddUnitsAt(shares, slots, n - 1, k);
    }
  }

  /** The remainders add up to the leftover units times the weight sum. */
  lemma {:induction false} RemainderSum(total: int, weights: seq<int>, w: int, floors: seq<int>, rems: seq<int>)
    requires w > 0
    requires |floors| == |rems| == |weights|
    requires forall i :: 0 <= i < |weights| ==> total * weights[i] == floors[i] * w + rems[i]
    ensures total * Sum(weights) == Sum(floors) * w + Sum(rems)
  {
    if weights != [] {
      var n := |weights| - 1;
      RemainderSum(total, weights[..n], w, floors[..n], rems[..n]);
      SplitProduct(total, Sum(weights[..n]), weights[n], Sum(floors[..n]), floors[n], w, Sum(rems[..n]), rems[n]);
    }
  }

  lemma SplitProduct(t: int, a: int, b: int, f: int, g: int, w: int, r: int, q: int)
    requires t * a == f * w + r && t * b == g * w + q
    ensures t * (a + b) == (f + g) * w + (r + q)
  {
    assert t * (a + b) == t * a + t * b;
    assert (f + g) * w == f * w + g * w;
  }

  function Remainders(total: int, weights: seq<int>): (r: seq<int>)
    requires Sum(weights) > 0
    ensures |r| == |weights|
  {
    seq(|weights|, i requires 0 <= i < |weights| => (total * weights[i]) % Sum(weights))
  }

  lemma {:induction false} SumBounds(s: seq<int>, w: int)
    requires forall i :: 0 <= i < |s| ==> 0 <= s[i] < w
    ensures 0 <= Sum(s)
    ensures s != [] ==> Sum(s) < |s| * w
  {
    if s != [] {
      var n := |s| - 1;
      SumBounds(s[..n], w);
      assert (n + 1) * w == n * w + w;
    }
  }

  lemma QuotaParts(total: int, weights: seq<int>, i: nat)
    requires total >= 0 && NonNegative(weights) && Sum(weights) > 0 && i < |weights|
    ensures Floors(total, weights)[i] == (total * weights[i]) / Sum(weights)
    ensures Slots(total, weights)[i] == Slot(i, (total * weights[i]) % Sum(weights))
    ensures Remainders(total, weights)[i] == (total * weights[i]) % Sum(weights)
    ensures 0 <= Remainders(total, weights)[i] < Sum(weights)
    ensures total * weights[i] == Floors(total, weights)[i] * Sum(weights) + Remainders(total, weights)[i]
  {
    TruncNonNegative(total * weights[i], Sum(weights));
  }

  lemma TruncNonNegative(x: int, w: int)
    requires x >= 0 && w > 0
    ensures TruncDiv(x, w) == x / w && TruncMod(x, w) == x % w
    ensures x == (x / w) * w + x % w && 0 <= x % w < w
  {
    DivMod(x, w);
  }

  lemma NotEmpty(weights: seq<int>)
    ensures Sum(weights) > 0 ==> weights != []
  {
  }

  /** Fewer spare units than buckets, and together they weigh what the remainders weigh. */
  lemma LeftoverBounds(total: int, weights: seq<int>)
    requires total >= 0 && NonNegative(weights) && Sum(weights) > 0
    ensures Leftover(total, weights) * Sum(weights) == Sum(Remainders(total, weights))
    ensures 0 <= Leftover(total, weights) < |weights|
    ensures Handed(total, weights) == Leftover(total, weights)
  {
    hide Sum, Floors, Remainders, Slots, NonNegative;
    NotEmpty(weights);
    forall i | 0 <= i < |weights|
      ensures 0 <= Remainders(total, weights)[i] < Sum(weights)
      ensures total * weights[i] == Floors(total, weights)[i] * Sum(weights) + Remainders(total, weights)[i]
    {
      QuotaParts(total, weights, i);
    }
    LeftoverArithmetic(total, weights, Sum(weights), Floors(total, weights), Remainders(total, weights));
  }

  lemma LeftoverArithmetic(total: int, weights: seq<int>, w: int, floors: seq<int>, rems: seq<int>)
    requires |floors| == |rems| == |weights| > 0 && w > 0 && w == Sum(weights)
    requires forall i :: 0 <= i < |weights| ==> 0 <= rems[i] < w
    requires forall i :: 0 <= i < |weights| ==> total * weights[i] == floors[i] * w + rems[i]
    ensures (total - Sum(floors)) * w == Sum(rems)
    ensures 0 <= total - Sum(floors) < |weights|
  {
    RemainderSum(total, weights, w, floors, rems);
    SumBounds(rems, w);
    LeftoverQuotient(total, w, Sum(floors), Sum(rems), |weights|);
  }

  lemma LeftoverQuotient(total: int, w: int, f: int, r: int, n: nat)
    requires w > 0 && total * w == f * w + r
    requires r < n * w
    ensures (total - f) * w == r
    ensures total - f < n
    ensures r >= 0 ==> total - f >= 0
  {
    assert (total - f) * w == total * w - f * w;
    Steps(total - f, n, w);
    Steps(total - f, 0, w);
  }

  /** Every bucket index is ranked exactly once. */
  lemma RankedCovers(total: int, weights: seq<int>, i: nat) returns (k: nat)
    requires Sum(weights) > 0 && i < |weights|
    ensures k < |weights| && Ranked(total, weights)[k] == Slots(total, weights)[i]
  {
    var slots := Slots(total, weights);
    assert slots[i] in slots;
    assert slots[i] in Ranked(total, weights);
    k :| 0 <= k < |weights| && Ranked(total, weights)[k] == slots[i];
  }

  lemma RankedDistinct(total: int, weights: seq<int>)
    requires Sum(weights) > 0
    ensures Ordered(Ranked(total, weights)) && DistinctIndices(Ranked(total, weights))
  {
    var s, slots := Ranked(total, weights), Slots(total, weights);
    forall i, j | 0 <= i < j < |s|
      ensures s[i].index != s[j].index
    {
      assert Before(s[i], s[j]);
      assert s[i] in s && s[j] in s;
      assert s[i] in slots && s[j] in slots;
    }
  }

  /** Bucket i got a spare unit exactly when its rank is among the first Leftover ones. */
  lemma UnitGoesByRank(total: int, weights: seq<int>, k: nat)
    requires total >= 0 && NonNegative(weights) && Sum(weights) > 0 && k < |weights|
    ensures var slot := Ranked(total, weights)[k];
            Allocation(total, weights)[slot.index] ==
            Floors(total, weights)[slot.index] + if k < Leftover(total, weights) then 1 else 0
  {
    var ranked, l := Ranked(total, weights), Leftover(total, weights);
    LeftoverBounds(total, weights);
    RankedDistinct(total, weights);
    AddUnitsAt(Floors(total, weights), ranked, l, k);
  }

  /** The code computes the largest-remainder split. */
  lemma AllocationIsLargestRemainder(total: int, weights: seq<int>)
    requires total >= 0 && NonNegative(weights) && Sum(weights) > 0
    ensures LargestRemainder(total, weights, Allocation(total, weights))
  {
    var w, shares, ranked := Sum(weights), Allocation(total, weights), Ranked(total, weights);
    LeftoverBounds(total, weights);
    RankedDistinct(total, weights);
    AddUnitsSum(Floors(total, weights), ranked, Leftover(total, weights));
    forall i | 0 <= i < |weights|
      ensures shares[i] == (total * weights[i]) / w || shares[i] == (total * weights[i]) / w + 1
    {
      var k := RankedCovers(total, weights, i);
      UnitGoesByRank(total, weights, k);
      QuotaParts(total, weights, i);
    }
    forall i, j | 0 <= i < |weights| && 0 <= j < |weights| && Outranks(total, weights, i, j)
                  && shares[j] == (total * weights[j]) / w + 1
      ensures shares[i] == (total * weights[i]) / w + 1
    {
      QuotaParts(total, weights, i);
      QuotaParts(total, weights, j);
      var ki := RankedCovers(total, weights, i);
      var kj := RankedCovers(total, weights, j);
      UnitGoesByRank(total, weights, ki);
      UnitGoesByRank(total, weights, kj);
      assert Before(ranked[ki], ranked[kj]) && !Before(ranked[kj], ranked[ki]);
    }
  }

  /** There is only one largest-remainder split, so the description above fixes the result. */
  lemma LargestRemainderUnique(total: int, weights: seq<int>, a: seq<int>, b: seq<int>)
    requires Sum(weights) > 0
    requires LargestRemainder(total, weights, a) && LargestRemainder(total, weights, b)
    ensures a == b
  {
    if a != b {
      var i := ExceedsSomewhere(a, b);
      var j := ExceedsSomewhere(b, a);
      if Outranks(total, weights, i, j) {
        assert false;
      } else {
        assert Outranks(total, weights, j, i);
        assert false;
      }
    }
  }

  lemma ExceedsSomewhere(a: seq<int>, b: seq<int>) returns (i: nat)
    requires |a| == |b| && Sum(a) == Sum(b) && a != b
    ensures i < |a| && a[i] > b[i]
  {
    if forall k :: 0 <= k < |a| ==> a[k] <= b[k] {
      SumMonotone(a, b);
      assert false;
    }
    i :| 0 <= i < |a| && a[i] > b[i];
  }

  /** A bucket with an integral quota, a zero weight among them, gets exactly that quota. */
  lemma ExactQuotaKept(total: int, weights: seq<int>, z: nat)
    requires total >= 0 && NonNegative(weights) && Sum(weights) > 0 && z < |weights|
    requires (total * weights[z]) % Sum(weights) == 0
    ensures Allocation(total, weights)[z] == (total * weights[z]) / Sum(weights)
  {
    hide Allocation, Floors, Remainders, Slots, Sum;
    AllocationIsLargestRemainder(total, weights);
    LeftoverBounds(total, weights);
    QuotaParts(total, weights, z);
    var shares, floors, rems := Allocation(total, weights), Floors(total, weights), Remainders(total, weights);
    if shares[z] != floors[z] {
      forall i | 0 <= i < |weights|
        ensures 0 <= rems[i] < Sum(weights)
        ensures shares[i] == floors[i] || shares[i] == floors[i] + 1
        ensures rems[i] > 0 ==> shares[i] == floors[i] + 1
      {
        QuotaParts(total, weights, i);
        if rems[i] > 0 {
          assert Outranks(total, weights, i, z);
        }
      }
      UnitsCoverRemainders(shares, floors, rems, Sum(weights), z);
    }
  }

  /** If every fractional bucket got a unit, the units outweigh the remainders; strictly if bucket z needed none. */
  lemma {:induction false} UnitsCoverRemainders(shares: seq<int>, floors: seq<int>, rems: seq<int>, w: int, z: int)
    requires |shares| == |floors| == |rems| && w > 0
    requires forall i :: 0 <= i < |shares| ==> 0 <= rems[i] < w
    requires forall i :: 0 <= i < |shares| ==> shares[i] == floors[i] || shares[i] == floors[i] + 1
    requires forall i :: 0 <= i < |shares| && rems[i] > 0 ==> shares[i] == floors[i] + 1
    requires 0 <= z < |shares| ==> shares[z] == floors[z] + 1
    ensures Sum(rems) <= (Sum(shares) - Sum(floors)) * w
    ensures 0 <= z < |shares| ==> Sum(rems) < (Sum(shares) - Sum(floors)) * w
  {
    if shares != [] {
      var n := |shares| - 1;
      UnitsCoverRemainders(shares[..n], floors[..n], rems[..n], w, z);
      OneMoreUnit(Sum(shares[..n]), Sum(floors[..n]), shares[n], floors[n], w);
    }
  }

  lemma OneMoreUnit(a: int, b: int, x: int, y: int, w: int)
    requires x == y || x == y + 1
    ensures ((a + x) - (b + y)) * w == (a - b) * w + if x == y then 0 else w
  {
    assert x != y ==> (a - b + 1) * w == (a - b) * w + w;
  }

  lemma AllocationNonNegative(total: int, weights: seq<int>)
    requires total >= 0 && NonNegative(weights) && Sum(weights) > 0
    ensures NonNegative(Allocation(total, weights))
  {
    AllocationIsLargestRemainder(total, weights);
    forall i | 0 <= i < |weights|
      ensures Allocation(total, weights)[i] >= 0
    {
      QuotaParts(total, weights, i);
      assert total * weights[i] >= 0;
      QuotientNonNegative(total * weights[i], Sum(weights));
    }
  }

  lemma QuotientNonNegative(x: int, w: int)
    requires w > 0
    ensures x >= 0 ==> x / w >= 0
  {
  }

  /** When the total fits the weights, no bucket gets more than its weight. */
  lemma AllocationWithinWeights(total: int, weights: seq<int>, i: nat)
    requires 0 <= total <= Sum(weights) && NonNegative(weights) && Sum(weights) > 0 && i < |weights|
    ensures 0 <= Allocation(total, weights)[i] <= weights[i]
  {
    var w, x := Sum(weights), weights[i];
    QuotaParts(total, weights, i);
    AllocationIsLargestRemainder(total, weights);
    var q, r := Floors(total, weights)[i], Remainders(total, weights)[i];
    if r == 0 {
      ExactQuotaKept(total, weights, i);
    }
    ShareBelowWeight(total, w, x, q, r);
  }

  lemma ShareBelowWeight(total: int, w: int, x: int, q: int, r: int)
    requires 0 <= total <= w && w > 0 && x >= 0
    requires total * x == q * w + r && 0 <= r < w
    ensures 0 <= q && (if r == 0 then q <= x else q < x)
  {
    Steps(total, w, x);
    assert total * x >= 0;
    assert x * w == w * x;
    Steps(q, 0, w);
    Steps(q, x, w);
  }

  /** Nothing is lost for a total of either sign, and opposite totals get opposite shares. */
  lemma AllocationConserves(total: int, weights: seq<int>)
    requires NonNegative(weights) && Sum(weights) > 0
    ensures Sum(Allocation(total, weights)) == total
    ensures forall i :: 0 <= i < |weights| ==> Allocation(-total, weights)[i] == -Allocation(total, weights)[i]
  {
    var t := Abs(total);
    AllocationIsLargestRemainder(t, weights);
    NegatedSum(Allocation(t, weights));
    if t == 0 {
      ZeroAllocation(weights);
    }
  }

  /** Each share is its exact quota rounded down or up: it misses it by less than one unit. */
  lemma AllocationWithinOneUnit(total: int, weights: seq<int>, i: nat)
    requires NonNegative(weights) && Sum(weights) > 0 && i < |weights|
    ensures Abs(Allocation(total, weights)[i] * Sum(weights) - total * weights[i]) < Sum(weights)
  {
    var w, t := Sum(weights), Abs(total);
    QuotaParts(t, weights, i);
    AllocationIsLargestRemainder(t, weights);
    if Remainders(t, weights)[i] == 0 {
      ExactQuotaKept(t, weights, i);
    }
    OffByFraction(Allocation(t, weights)[i], w, t, weights[i], Floors(t, weights)[i], Remainders(t, weights)[i]);
  }

  lemma OffByFraction(s: int, w: int, t: int, x: int, q: int, r: int)
    requires t * x == q * w + r && 0 <= r < w
    requires s == q || (r > 0 && s == q + 1)
    ensures Abs(s * w - t * x) < w
    ensures Abs((-s) * w - (-t) * x) < w
  {
    assert (q + 1) * w == q * w + w;
    assert (-s) * w == -(s * w) && (-t) * x == -(t * x);
  }

  lemma ZeroAllocation(weights: seq<int>)
    requires NonNegative(weights) && Sum(weights) > 0
    ensures forall i :: 0 <= i < |weights| ==> Allocation(0, weights)[i] == 0
  {
    hide Allocation;
    forall i | 0 <= i < |weights|
      ensures Allocation(0, weights)[i] == 0
    {
      ExactQuotaKept(0, weights, i);
    }
  }

  lemma {:induction false} NegatedSum(s: seq<int>)
    ensures Sum(Negated(s)) == -Sum(s)
  {
    if s != [] {
      assert Negated(s)[..|s| - 1] == Negated(s[..|s| - 1]);
      NegatedSum(s[..|s| - 1]);
    }
  }

  /**
   * A negative weight beside a positive sum is let through, and can invent money: the split
   * is exact if and only if the truncated quotas do not already exceed the total.
   */
  lemma AllocationExactIff(total: int, weights: seq<int>)
    requires total >= 0 && Sum(weights) > 0
    ensures Sum(Allocation(total, weights)) == total <==> Sum(Floors(total, weights)) <= total
  {
    TruncatedLeftover(total, weights);
    AddUnitsSum(Floors(total, weights), Ranked(total, weights), Handed(total, weights));
  }

  lemma TruncatedLeftover(total: int, weights: seq<int>)
    requires Sum(weights) > 0
    ensures Leftover(total, weights) < |weights|
  {
    var w, floors := Sum(weights), Floors(total, weights);
    var rems := seq(|weights|, i requires 0 <= i < |weights| => TruncMod(total * weights[i], w));
    forall i | 0 <= i < |weights|
      ensures rems[i] < w
      ensures total * weights[i] == floors[i] * w + rems[i]
    {
      TruncParts(total * weights[i], w);
    }
    RemainderSum(total, weights, w, floors, rems);
    SumBelow(rems, w);
    LeftoverQuotient(total, w, Sum(floors), Sum(rems), |weights|);
  }

  lemma TruncParts(x: int, w: int)
    requires w > 0
    ensures x == TruncDiv(x, w) * w + TruncMod(x, w)
    ensures -w < TruncMod(x, w) < w
  {
    DivMod(x, w);
    DivMod(-x, w);
    var q := (-x) / w;
    assert (-q) * w == -(q * w);
  }

  lemma {:induction false} SumBelow(s: seq<int>, w: int)
    requires forall i :: 0 <= i < |s| ==> s[i] < w
    requires s != []
    ensures Sum(s) < |s| * w
  {
    var n := |s| - 1;
    assert (n + 1) * w == n * w + w;
    if n > 0 {
      SumBelow(s[..n], w);
    }
  }

  /** The failing family is not empty: 2 paise over weights -1, -1 and 5 come out as 3. */
  lemma NegativeWeightsInventMoney()
    ensures Sum([-1, -1, 5]) > 0 && Sum(Allocation(2, [-1, -1, 5])) != 2
  {
    var weights := [-1, -1, 5];
    assert weights[..2] == [-1, -1] && weights[..2][..1] == [-1];
    assert Sum([-1]) == -1 && Sum([-1, -1]) == -2 && Sum(weights) == 3;
    var floors := Floors(2, weights);
    assert TruncDiv(-2, 3) == 0 && TruncDiv(10, 3) == 3;
    assert floors == [0, 0, 3];
    assert [0, 0, 3][..2] == [0, 0] && [0, 0][..1] == [0];
    AllocationExactIff(2, weights);
  }
}
