/**
 * The Verhoeff checksum: the group table D, the position permutations P and the inverses INV,
 * folded over a digit string from its last digit.
 */
module Verhoeff {
  import opened Digits

  const D: seq<seq<int>> := [
    [0, 1, 2, 3, 4, 5, 6, 7, 8, 9],
    [1, 2, 3, 4, 0, 6, 7, 8, 9, 5],
    [2, 3, 4, 0, 1, 7, 8, 9, 5, 6],
    [3, 4, 0, 1, 2, 8, 9, 5, 6, 7],
    [4, 0, 1, 2, 3, 9, 5, 6, 7, 8],
    [5, 9, 8, 7, 6, 0, 4, 3, 2, 1],
    [6, 5, 9, 8, 7, 1, 0, 4, 3, 2],
    [7, 6, 5, 9, 8, 2, 1, 0, 4, 3],
    [8, 7, 6, 5, 9, 3, 2, 1, 0, 4],
    [9, 8, 7, 6, 5, 4, 3, 2, 1, 0]]

  const P: seq<seq<int>> := [
    [0, 1, 2, 3, 4, 5, 6, 7, 8, 9],
    [1, 5, 7, 6, 2, 8, 3, 0, 9, 4],
    [5, 8, 0, 3, 7, 9, 6, 1, 4, 2],
    [8, 9, 1, 6, 0, 4, 3, 5, 2, 7],
    [9, 4, 5, 3, 1, 2, 6, 8, 7, 0],
    [4, 2, 8, 6, 5, 7, 3, 9, 0, 1],
    [2, 7, 9, 3, 8, 0, 6, 4, 1, 5],
    [7, 0, 4, 6, 9, 1, 3, 2, 5, 8]]

  const INV: seq<int> := [0, 4, 3, 2, 1, 5, 6, 7, 8, 9]

  // ---------------------------------------------------------------- the tables mean something

  /** Points of Z5, and reduction of a sum or difference of two of them. */
  type Point = x: int | 0 <= x < 5

  function Wrap(x: int): Point
    requires -5 < x < 10
  {
    if x < 0 then x + 5 else if x >= 5 then x - 5 else x
  }

  /** Element i < 5 is the rotation x -> x + i of Z5, i >= 5 the reflection x -> (i - 5) - x. */
  function Act(i: Digit, x: Point): Point {
    if i < 5 then Wrap(x + i) else Wrap(i - 5 - x)
  }

  /** Composition in D5, as arithmetic. */
  function Mul(a: Digit, b: Digit): Digit {
    if a < 5 then
      if b < 5 then Wrap(a + b) else 5 + Wrap(a + b - 5)
    else
      if b < 5 then 5 + Wrap(a - 5 - b) else Wrap(a - b)
  }

  function Inverse(a: Digit): Digit {
    if a < 5 then Wrap(5 - a) else a
  }

  /** Mul is composition of the symmetries that Act describes. */
  lemma MulComposes(a: Digit, b: Digit, x: Point)
    ensures Act(Mul(a, b), x) == Act(a, Act(b, x))
  {
  }

  lemma MulAssociative(a: Digit, b: Digit, c: Digit)
    ensures Mul(Mul(a, b), c) == Mul(a, Mul(b, c))
  {
    hide Mul, Act;
    forall x: Point
      ensures Act(Mul(Mul(a, b), c), x) == Act(Mul(a, Mul(b, c)), x)
    {
      MulComposes(Mul(a, b), c, x);
      MulComposes(a, b, Act(c, x));
      MulComposes(b, c, x);
      MulComposes(a, Mul(b, c), x);
    }
    ActFaithful(Mul(Mul(a, b), c), Mul(a, Mul(b, c)));
  }

  /** A symmetry is known by where it takes the points. */
  lemma ActFaithful(i: Digit, j: Digit)
    requires forall x: Point :: Act(i, x) == Act(j, x)
    ensures i == j
  {
    assert Act(i, 0) == Act(j, 0);
    assert Act(i, 1) == Act(j, 1);
  }

  lemma MulIdentity(a: Digit)
    ensures Mul(0, a) == a && Mul(a, 0) == a
  {
  }

  lemma MulInverse(a: Digit, b: Digit)
    ensures Mul(b, a) == 0 <==> b == Inverse(a)
  {
  }

  lemma MulCancels(a: Digit, b: Digit, c: Digit)
    ensures Mul(a, c) == Mul(b, c) ==> a == b
    ensures Mul(c, a) == Mul(c, b) ==> a == b
  {
  }

  lemma TableD(a: Digit, b: Digit)
    ensures |D| == 10 && |D[a]| == 10
    ensures D[a][b] == Mul(a, b)
  {
    hide D, Mul;
    if a < 5 { Rotations(a, b); } else { Reflections(a, b); }
  }

  lemma Rotations(a: Digit, b: Digit)
    requires a < 5
    ensures |D| == 10 && |D[a]| == 10 && D[a][b] == Mul(a, b)
  {
    if a == 0 { assert D[0][b] == Mul(0, b); }
    else if a == 1 { assert D[1][b] == Mul(1, b); }
    else if a == 2 { assert D[2][b] == Mul(2, b); }
    else if a == 3 { assert D[3][b] == Mul(3, b); }
    else { assert D[4][b] == Mul(4, b); }
  }

  lemma Reflections(a: Digit, b: Digit)
    requires a >= 5
    ensures |D| == 10 && |D[a]| == 10 && D[a][b] == Mul(a, b)
  {
    if a == 5 { assert D[5][b] == Mul(5, b); }
    else if a == 6 { assert D[6][b] == Mul(6, b); }
    else if a == 7 { assert D[7][b] == Mul(7, b); }
    else if a == 8 { assert D[8][b] == Mul(8, b); }
    else { assert D[9][b] == Mul(9, b); }
  }

  lemma TableInv(a: Digit)
    ensures |INV| == 10 && INV[a] == Inverse(a)
  {
  }

  /** P[i] is row 1 applied i times, with period 8. */
  lemma TableP(i: nat, x: Digit)
    ensures |P| == 8 && |P[i % 8]| == 10
    ensures 0 <= P[i % 8][x] < 10
    ensures P[0][x] == x
    ensures P[(i + 1) % 8][x] == P[1][P[i % 8][x]]
  {
    hide P;
    FirstRow(x);
    RowAfter(i);
    NextRow(i % 8, x);
  }

  lemma RowAfter(i: nat)
    ensures (i + 1) % 8 == (i % 8 + 1) % 8
  {
  }

  lemma FirstRow(x: Digit)
    ensures |P| == 8 && |P[0]| == 10 && P[0][x] == x
  {
  }

  lemma Row(k: nat, x: Digit)
    requires k < 8
    ensures |P| == 8 && |P[k]| == 10 && 0 <= P[k][x] < 10
  {
  }

  lemma NextRow(k: nat, x: Digit)
    requires k < 8
    ensures |P| == 8 && |P[k]| == 10 && 0 <= P[k][x] < 10 && |P[1]| == 10
    ensures |P[(k + 1) % 8]| == 10 && P[(k + 1) % 8][x] == P[1][P[k][x]]
  {
    hide P;
    Row(k, x);
    Row((k + 1) % 8, x);
    Row(1, P[k][x]);
    if k < 2 { RowsOneTwo(k, x); }
    else if k < 4 { RowsThreeFour(k, x); }
    else if k < 6 { RowsFiveSix(k, x); }
    else { RowsSevenZero(k, x); }
  }

  lemma RowsOneTwo(k: nat, x: Digit)
    requires k < 2 && |P| == 8 && |P[k]| == 10 && 0 <= P[k][x] < 10 && |P[k + 1]| == 10 && |P[1]| == 10
    ensures P[k + 1][x] == P[1][P[k][x]]
  {
    if k == 0 { assert P[1][x] == P[1][P[0][x]]; }
    else { assert P[2][x] == P[1][P[1][x]]; }
  }

  lemma RowsThreeFour(k: nat, x: Digit)
    requires 2 <= k < 4 && |P| == 8 && |P[k]| == 10 && 0 <= P[k][x] < 10 && |P[k + 1]| == 10 && |P[1]| == 10
    ensures P[k + 1][x] == P[1][P[k][x]]
  {
    if k == 2 { assert P[3][x] == P[1][P[2][x]]; }
    else { assert P[4][x] == P[1][P[3][x]]; }
  }

  lemma RowsFiveSix(k: nat, x: Digit)
    requires 4 <= k < 6 && |P| == 8 && |P[k]| == 10 && 0 <= P[k][x] < 10 && |P[k + 1]| == 10 && |P[1]| == 10
    ensures P[k + 1][x] == P[1][P[k][x]]
  {
    if k == 4 { assert P[5][x] == P[1][P[4][x]]; }
    else { assert P[6][x] == P[1][P[5][x]]; }
  }

  lemma RowsSevenZero(k: nat, x: Digit)
    requires 6 <= k < 8 && |P| == 8 && |P[k]| == 10 && 0 <= P[k][x] < 10 && |P[(k + 1) % 8]| == 10 && |P[1]| == 10
    ensures P[(k + 1) % 8][x] == P[1][P[k][x]]
  {
    if k == 6 { assert P[7][x] == P[1][P[6][x]]; }
    else { assert P[0][x] == P[1][P[7][x]]; }
  }

  function RowOne(x: Digit): Digit {
    TableP(1, x);
    P[1][x]
  }

  lemma RowOneInjective(u: Digit, v: Digit)
    ensures RowOne(u) == RowOne(v) ==> u == v
  {
    assert P[1][u] == P[1][v] ==> u == v;
  }

  lemma RowOneValues()
    ensures RowOne(0) == 1 && RowOne(1) == 5 && RowOne(2) == 7 && RowOne(3) == 6 && RowOne(4) == 2
    ensures RowOne(5) == 8 && RowOne(6) == 3 && RowOne(7) == 0 && RowOne(8) == 9 && RowOne(9) == 4
  {
  }

  /** What makes the scheme catch swapped neighbours: row 1 never commutes two different digits. */
  lemma RowOneAntisymmetric(u: Digit, v: Digit)
    requires u != v
    ensures Mul(v, RowOne(u)) != Mul(u, RowOne(v))
  {
    hide RowOne;
    RowOneValues();
  }

  // ---------------------------------------------------------------- the fold

  function Permuted(i: nat, x: Digit): Digit {
    TableP(i, x);
    P[i % 8][x]
  }

  lemma PermutedPower(i: nat, x: Digit)
    ensures Permuted(0, x) == x
    ensures Permuted(i + 1, x) == RowOne(Permuted(i, x))
  {
    TableP(0, x);
    TableP(i, x);
  }

  /** Every position permutes the digits, being a power of row 1. */
  lemma {:induction false} PermutedInjective(i: nat, x: Digit, y: Digit)
    ensures Permuted(i, x) == Permuted(i, y) ==> x == y
  {
    hide Permuted, RowOne;
    if i == 0 {
      PermutedPower(0, x);
      PermutedPower(0, y);
    } else {
      PermutedPower(i - 1, x);
      PermutedPower(i - 1, y);
      PermutedInjective(i - 1, x, y);
      RowOneInjective(Permuted(i - 1, x), Permuted(i - 1, y));
    }
  }

  /**
   * The checksum of a digit string whose last digit stands at position `offset`: positions count
   * from the last digit, and the first digit of the string is folded in last.
   */
  function Checksum(digits: string, offset: nat): Digit
    requires AllDigits(digits)
  {
    if digits == [] then 0
    else
      Mul(Checksum(digits[1..], offset), Permuted(offset + |digits| - 1, DigitOf(digits[0])))
  }

  predicate Valid(digits: string)
    requires AllDigits(digits)
  {
    Checksum(digits, 0) == 0
  }

  method VerhoeffCheckDigit(digits: string) returns (r: Digit)
    requires AllDigits(digits)
    ensures Valid(Appended(digits, r))
    ensures forall d: Digit :: Valid(Appended(digits, d)) ==> d == r
  {
    hide D, P, INV, Mul;
    var c := 0;
    var n := |digits|;
    for i := 0 to n
      invariant 0 <= c < 10
      invariant c == Checksum(digits[n - i..], 1)
    {
      var x := DigitOf(digits[n - 1 - i]);
      TableP(i + 1, x);
      TableD(c, P[(i + 1) % 8][x]);
      assert digits[n - i - 1..][1..] == digits[n - i..];
      c := D[c][P[(i + 1) % 8][x]];
    }
    assert digits[n - n..] == digits;
    TableInv(c);
    forall d: Digit
      ensures Valid(Appended(digits, d)) <==> d == INV[c]
    {
      CheckDigitIsUnique(digits, d);
    }
    return INV[c];
  }

  method IsValidVerhoeff(digits: string) returns (ok: bool)
    requires AllDigits(digits)
    ensures ok == Valid(digits)
  {
    var c := 0;
    var n := |digits|;
    for i := 0 to n
      invariant 0 <= c < 10
      invariant c == Checksum(digits[n - i..], 0)
    {
      var x := DigitOf(digits[n - 1 - i]);
      TableP(i, x);
      TableD(c, P[i % 8][x]);
      assert digits[n - i - 1..][1..] == digits[n - i..];
      c := D[c][P[i % 8][x]];
    }
    assert digits[n - n..] == digits;
    return c == 0;
  }

  // ---------------------------------------------------------------- what the checksum promises

  function Appended(digits: string, d: Digit): (r: string)
    requires AllDigits(digits)
    ensures AllDigits(r) && |r| == |digits| + 1
  {
    digits + [CharOf(d)]
  }

  /** A digit appended at the end multiplies the checksum from the left. */
  lemma {:induction false} ChecksumAppended(digits: string, d: Digit, offset: nat)
    requires AllDigits(digits)
    ensures Checksum(Appended(digits, d), offset) == Mul(Permuted(offset, d), Checksum(digits, offset + 1))
  {
    hide Permuted, Mul;
    var s := Appended(digits, d);
    if digits == [] {
      assert s[1..] == [];
      MulIdentity(Permuted(offset, d));
    } else {
      assert s[1..] == Appended(digits[1..], d);
      ChecksumAppended(digits[1..], d, offset);
      MulAssociative(Permuted(offset, d), Checksum(digits[1..], offset + 1),
                     Permuted(offset + |digits|, DigitOf(digits[0])));
    }
  }

  /** Exactly one last digit makes a string valid, and it is the check digit. */
  lemma CheckDigitIsUnique(digits: string, d: Digit)
    requires AllDigits(digits)
    ensures Valid(Appended(digits, d)) <==> d == Inverse(Checksum(digits, 1))
  {
    hide Permuted, Mul;
    var whole, rest, p := Checksum(Appended(digits, d), 0), Checksum(digits, 1), Permuted(0, d);
    assert whole == Mul(p, rest) by { ChecksumAppended(digits, d, 0); }
    assert p == d by { PermutedPower(0, d); }
    assert whole == 0 <==> d == Inverse(rest) by { MulInverse(rest, d); }
  }

  lemma FactorsDiffer(a: Digit, b: Digit, k: nat, x: Digit, y: Digit)
    requires (a == b) != (x == y)
    ensures Mul(a, Permuted(k, x)) != Mul(b, Permuted(k, y))
  {
    hide Permuted, Mul;
    PermutedInjective(k, x, y);
    MulCancels(Permuted(k, x), Permuted(k, y), a);
    MulCancels(a, b, Permuted(k, x));
  }

  /** Changing any one digit changes the checksum. */
  lemma {:induction false} OneDigitChanged(digits: string, i: nat, c: char, offset: nat)
    requires AllDigits(digits) && i < |digits| && IsDigit(c) && c != digits[i]
    ensures AllDigits(digits[i := c])
    ensures Checksum(digits[i := c], offset) != Checksum(digits, offset)
  {
    hide Permuted, Mul;
    var s, k := digits[i := c], offset + |digits| - 1;
    if i == 0 {
      assert s[1..] == digits[1..];
      FactorsDiffer(Checksum(digits[1..], offset), Checksum(digits[1..], offset), k, DigitOf(c), DigitOf(digits[0]));
    } else {
      assert s[1..] == digits[1..][i - 1 := c];
      OneDigitChanged(digits[1..], i - 1, c, offset);
      FactorsDiffer(Checksum(s[1..], offset), Checksum(digits[1..], offset), k, DigitOf(digits[0]), DigitOf(digits[0]));
    }
  }

  function Swapped(digits: string, i: nat): (r: string)
    requires AllDigits(digits) && i + 1 < |digits|
    ensures AllDigits(r) && |r| == |digits|
  {
    digits[i := digits[i + 1]][i + 1 := digits[i]]
  }

  /** Swapping two unequal neighbours changes the checksum. */
  lemma {:induction false} NeighboursSwapped(digits: string, i: nat, offset: nat)
    requires AllDigits(digits) && i + 1 < |digits| && digits[i] != digits[i + 1]
    ensures Checksum(Swapped(digits, i), offset) != Checksum(digits, offset)
  {
    hide Permuted, Mul;
    var s, k := Swapped(digits, i), offset + |digits| - 1;
    if i == 0 {
      FrontSwapped(digits, offset);
    } else {
      assert s[1..] == Swapped(digits[1..], i - 1);
      NeighboursSwapped(digits[1..], i - 1, offset);
      FactorsDiffer(Checksum(s[1..], offset), Checksum(digits[1..], offset), k, DigitOf(digits[0]), DigitOf(digits[0]));
    }
  }

  lemma FrontSwapped(digits: string, offset: nat)
    requires AllDigits(digits) && 2 <= |digits| && digits[0] != digits[1]
    ensures Checksum(Swapped(digits, 0), offset) != Checksum(digits, offset)
  {
    hide Permuted, RowOne, Mul;
    var s, k := Swapped(digits, 0), offset + |digits| - 2;
    var a, b := DigitOf(digits[0]), DigitOf(digits[1]);
    var rest := Checksum(digits[2..], offset);
    assert digits[1..][1..] == digits[2..] && s[1..][1..] == digits[2..];
    var pa, pb, qa, qb := Permuted(k, a), Permuted(k, b), Permuted(k + 1, a), Permuted(k + 1, b);
    assert Checksum(digits[1..], offset) == Mul(rest, pb);
    assert Checksum(s[1..], offset) == Mul(rest, pa);
    assert Checksum(digits, offset) == Mul(Mul(rest, pb), qa);
    assert Checksum(s, offset) == Mul(Mul(rest, pa), qb);
    PermutedPower(k, a);
    PermutedPower(k, b);
    PermutedInjective(k, a, b);
    RowOneAntisymmetric(pa, pb);
    MulAssociative(rest, pb, qa);
    MulAssociative(rest, pa, qb);
    MulCancels(Mul(pb, qa), Mul(pa, qb), rest);
  }

  /** No valid string stays valid after one mistyped digit or one swap of unequal neighbours. */
  lemma SingleErrorsDetected(digits: string)
    requires AllDigits(digits) && Valid(digits)
    ensures forall i, c :: 0 <= i < |digits| && IsDigit(c) && c != digits[i] ==>
              AllDigits(digits[i := c]) && !Valid(digits[i := c])
    ensures forall i :: 0 <= i < |digits| - 1 && digits[i] != digits[i + 1] ==> !Valid(Swapped(digits, i))
  {
    forall i, c | 0 <= i < |digits| && IsDigit(c) && c != digits[i]
      ensures AllDigits(digits[i := c]) && !Valid(digits[i := c])
    {
      OneDigitChanged(digits, i, c, 0);
    }
    forall i | 0 <= i < |digits| - 1 && digits[i] != digits[i + 1]
      ensures !Valid(Swapped(digits, i))
    {
      NeighboursSwapped(digits, i, 0);
    }
  }

  /** The published example: 236 has check digit 3. */
  lemma PublishedExample()
    ensures AllDigits("2363") && Valid("2363") && AllDigits("2364") && !Valid("2364")
    ensures Appended("236", 3) == "2363"
  {
    var digits := "236";
    assert digits[1..] == "36" && digits[1..][1..] == "6" && digits[1..][1..][1..] == "";
    ChecksumOfThree(digits);
    CheckDigitIsUnique(digits, 3);
    CheckDigitIsUnique(digits, 4);
    assert Appended(digits, 3) == "2363" && Appended(digits, 4) == "2364";
  }

  lemma ChecksumOfThree(digits: string)
    requires digits == "236"
    ensures AllDigits(digits) && Inverse(Checksum(digits, 1)) == 3
  {
    assert digits[1..] == "36" && digits[1..][1..] == "6" && digits[1..][1..][1..] == "";
    assert Checksum("6", 1) == Permuted(1, 6) == 3 by { PermutedPower(0, 6); RowOneValues(); }
    assert Permuted(2, 3) == 3 by { PermutedPower(1, 3); PermutedPower(0, 3); RowOneValues(); }
    assert Permuted(3, 2) == 1 by { PermutedPower(2, 2); PermutedPower(1, 2); PermutedPower(0, 2); RowOneValues(); }
    assert Checksum("36", 1) == Mul(3, 3);
    assert Checksum("236", 1) == Mul(Mul(3, 3), 1);
  }
}
