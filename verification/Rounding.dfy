/**
 * Division rounded to nearest with ties away from zero, as money and land area both need it.
 * `IsHalfUp` says what the rounding means; `HalfUpUnique` says it leaves no choice.
 */
module Rounding {
  import opened Common

  /** r is the integer nearest to n/d; a tie goes to the candidate of larger magnitude. */
  ghost predicate IsHalfUp(n: int, d: int, r: int)
    requires d != 0
  {
    && 2 * Abs(r * d - n) <= Abs(d)
    && (2 * Abs(r * d - n) == Abs(d) ==> 2 * Abs(r * d) == 2 * Abs(n) + Abs(d))
  }

  /** Flipping the sign of numerator or denominator flips the result. */
  lemma HalfUpSigns(n: int, d: int, r: int)
    requires d != 0 && IsHalfUp(n, d, r)
    ensures IsHalfUp(-n, d, -r) && IsHalfUp(-n, -d, r)
  {
    SignedProducts(r, d);
  }

  /** Multiples of d lie at least d apart: the one fact about products most proofs need. */
  lemma Steps(a: int, b: int, d: int)
    requires d >= 0
    ensures a < b ==> a * d + d <= b * d
    ensures b < a ==> b * d + d <= a * d
  {
    var k := b - a;
    assert b * d == a * d + k * d;
    if k >= 1 {
      assert k * d == (k - 1) * d + d;
      assert (k - 1) * d >= 0;
    } else if k <= -1 {
      var m := -k;
      assert k * d == -(m * d);
      assert m * d == (m - 1) * d + d;
      assert (m - 1) * d >= 0;
    }
  }

  /** Two integers cannot both be the rounding of the same quotient. */
  lemma HalfUpUnique(n: int, d: int, r: int, s: int)
    requires d != 0
    requires IsHalfUp(n, d, r) && IsHalfUp(n, d, s)
    ensures r == s
  {
    if n == 0 {
      RoundingOfZero(d, r);
      RoundingOfZero(d, s);
    } else if r != s {
      HalfUpClose(n, Abs(d), r * d, s * d);
      DistinctMultiples(d, r, s);
    }
  }

  lemma RoundingOfZero(d: int, r: int)
    requires d != 0 && IsHalfUp(0, d, r)
    ensures r == 0
  {
    if r != 0 {
      DistinctMultiples(d, r, 0);
    }
  }

  lemma HalfUpClose(n: int, m: int, x: int, y: int)
    requires m > 0 && n != 0
    requires 2 * Abs(x - n) <= m && (2 * Abs(x - n) == m ==> 2 * Abs(x) == 2 * Abs(n) + m)
    requires 2 * Abs(y - n) <= m && (2 * Abs(y - n) == m ==> 2 * Abs(y) == 2 * Abs(n) + m)
    ensures Abs(x - y) < m
  {
  }

  lemma DistinctMultiples(d: int, r: int, s: int)
    requires d != 0 && r != s
    ensures Abs(r * d - s * d) >= Abs(d)
  {
    if d > 0 {
      Steps(r, s, d);
    } else {
      assert r * d == (-r) * -d && s * d == (-s) * -d;
      Steps(-r, -s, -d);
    }
  }

  /** Scaling numerator and denominator by the same factor does not move the rounding. */
  lemma HalfUpScaled(n: int, d: int, k: int, r: int)
    requires d != 0 && k > 0
    requires IsHalfUp(n, d, r)
    ensures d * k != 0
    ensures IsHalfUp(n * k, d * k, r)
  {
    ScaledParts(n, d, k, r);
    ScaledComparison(Abs(r * d - n), Abs(d), Abs(r * d), Abs(n), k);
  }

  lemma ScaledParts(n: int, d: int, k: int, r: int)
    requires k > 0
    ensures Abs(d * k) == Abs(d) * k
    ensures Abs(n * k) == Abs(n) * k
    ensures Abs(r * (d * k)) == Abs(r * d) * k
    ensures Abs(r * (d * k) - n * k) == Abs(r * d - n) * k
  {
    Regroup(r, d, k);
    AbsScaled(d, k);
    AbsScaled(n, k);
    AbsScaled(r * d, k);
    Factored(r * d, n, k);
    AbsScaled(r * d - n, k);
  }

  lemma Regroup(x: int, y: int, z: int)
    ensures x * (y * z) == (x * y) * z
  {
  }

  lemma Factored(x: int, y: int, z: int)
    ensures x * z - y * z == (x - y) * z
  {
  }

  lemma SignedProducts(r: int, b: int)
    ensures r * -b == -(r * b) && (-r) * b == -(r * b) && (-r) * -b == r * b
  {
  }

  lemma ScaledComparison(e: int, m: int, w: int, z: int, k: int)
    requires k > 0 && m > 0
    requires 2 * e <= m && (2 * e == m ==> 2 * w == 2 * z + m)
    ensures m * k > 0
    ensures 2 * (e * k) <= m * k
    ensures 2 * (e * k) == m * k ==> 2 * (w * k) == 2 * (z * k) + m * k
  {
    assert 2 * (e * k) == (2 * e) * k;
    Steps(2 * e, m, k);
    Steps(0, m, k);
    assert 2 * (w * k) == (2 * w) * k;
    assert 2 * (z * k) + m * k == (2 * z + m) * k;
  }

  lemma AbsScaled(x: int, k: int)
    requires k > 0
    ensures Abs(x * k) == Abs(x) * k
  {
    Steps(x, 0, k);
    assert (-x) * k == -(x * k);
  }

  /** Euclidean division facts in the form the proofs use them. */
  lemma DivMod(n: int, d: int)
    requires d > 0
    ensures n == (n / d) * d + n % d
    ensures 0 <= n % d < d
    ensures n >= 0 ==> n / d >= 0
  {
  }

  /** Truncating a quotient does not move it across an integer. */
  lemma QuotientAtLeast(n: int, d: int, m: int)
    requires d > 0
    ensures m <= n / d <==> m * d <= n
  {
    DivMod(n, d);
    Steps(m, n / d, d);
  }

  /** A quotient between 0 and p rounds to something between 0 and p. */
  lemma HalfUpWithin(n: int, d: int, r: int, p: int)
    requires d > 0 && IsHalfUp(n, d, r)
    requires 0 <= n <= p * d
    ensures 0 <= r <= p
  {
    Steps(r, 0, d);
    Steps(r, p, d);
  }
}
