/** Digit strings and the naturals they denote. */
module DecimalText {
  import opened Digits

  function Pow10(n: nat): (p: int)
    ensures p >= 1
  {
    if n == 0 then 1 else 10 * Pow10(n - 1)
  }

  lemma {:induction false} Pow10Sum(m: nat, n: nat)
    ensures Pow10(m + n) == Pow10(m) * Pow10(n)
  {
    if m > 0 {
      Pow10Sum(m - 1, n);
      var a, b := Pow10(m - 1), Pow10(n);
      assert 10 * (a * b) == (10 * a) * b;
    }
  }

  /** Most significant digit first. */
  function DecimalValue(s: string): (v: int)
    requires AllDigits(s)
    ensures v >= 0
  {
    if s == [] then 0 else 10 * DecimalValue(s[..|s| - 1]) + DigitOf(s[|s| - 1])
  }

  /** Least significant digit first. */
  function LittleValue(s: string): (v: int)
    requires AllDigits(s)
    ensures v >= 0
  {
    if s == [] then 0 else DigitOf(s[0]) + 10 * LittleValue(s[1..])
  }

  lemma {:induction false} DecimalBound(s: string)
    requires AllDigits(s)
    ensures DecimalValue(s) < Pow10(|s|)
  {
    if s != [] {
      DecimalBound(s[..|s| - 1]);
    }
  }

  lemma {:induction false} DecimalConcat(s: string, t: string)
    requires AllDigits(s) && AllDigits(t)
    ensures AllDigits(s + t)
    ensures DecimalValue(s + t) == DecimalValue(s) * Pow10(|t|) + DecimalValue(t)
  {
    if t == [] {
      assert s + t == s;
    } else {
      var n := |t| - 1;
      assert (s + t)[..|s + t| - 1] == s + t[..n];
      DecimalConcat(s, t[..n]);
      ShiftedSum(DecimalValue(s), Pow10(n), DecimalValue(t[..n]), DigitOf(t[n]));
    }
  }

  lemma ShiftedSum(v: int, p: int, u: int, d: int)
    ensures 10 * (v * p + u) + d == v * (10 * p) + (10 * u + d)
  {
    assert v * (10 * p) == 10 * (v * p);
  }

  lemma DecimalAppend(s: string, d: Digit)
    requires AllDigits(s)
    ensures AllDigits(s + [CharOf(d)])
    ensures DecimalValue(s + [CharOf(d)]) == 10 * DecimalValue(s) + d
  {
    assert (s + [CharOf(d)])[..|s|] == s;
  }

  lemma {:induction false} LittleUpdate(s: string, i: nat, c: char)
    requires AllDigits(s) && IsDigit(c) && i < |s|
    ensures AllDigits(s[i := c])
    ensures LittleValue(s[i := c]) == LittleValue(s) + (DigitOf(c) - DigitOf(s[i])) * Pow10(i)
  {
    var t := s[i := c];
    if i == 0 {
      assert t[1..] == s[1..];
    } else {
      assert t[1..] == s[1..][i - 1 := c];
      LittleUpdate(s[1..], i - 1, c);
      TimesTen(DigitOf(c) - DigitOf(s[i]), Pow10(i - 1));
    }
  }

  lemma TimesTen(d: int, p: int)
    ensures 10 * (d * p) == d * (10 * p)
  {
  }

  function Reversed(s: string): (r: string)
    ensures |r| == |s|
    ensures forall i :: 0 <= i < |s| ==> r[i] == s[|s| - 1 - i]
  {
    if s == [] then [] else Reversed(s[1..]) + [s[0]]
  }

  lemma {:induction false} ReversedValue(s: string)
    requires AllDigits(s)
    ensures AllDigits(Reversed(s))
    ensures DecimalValue(Reversed(s)) == LittleValue(s)
    ensures LittleValue(Reversed(s)) == DecimalValue(s)
  {
    if s != [] {
      var n := |s| - 1;
      ReversedValue(s[1..]);
      assert Reversed(s)[..n] == Reversed(s[1..]);
      ReversedValue(s[..n]);
      assert Reversed(s)[1..] == Reversed(s[..n]);
    }
  }

  /** The decimal text of a natural number. */
  function NatText(n: nat): (s: string)
    ensures s != [] && AllDigits(s) && DecimalValue(s) == n
  {
    var front := if n < 10 then [] else NatText(n / 10);
    DecimalAppend(front, n % 10);
    front + [CharOf(n % 10)]
  }

  /** A number below 10^k has at most k digits. */
  lemma {:induction false} NatTextLength(n: nat, k: nat)
    requires n < Pow10(k) && k > 0
    ensures |NatText(n)| <= k
  {
    if n >= 10 {
      NatTextLength(n / 10, k - 1);
    }
  }

  /** No leading zero but that of 0 itself. */
  lemma {:induction false} NatTextCanonical(n: nat)
    ensures n > 0 ==> NatText(n)[0] != '0'
    ensures n == 0 ==> NatText(n) == "0"
  {
    if n >= 10 {
      NatTextCanonical(n / 10);
    }
  }

  function Zeros(k: nat): (z: string)
    ensures |z| == k && AllDigits(z) && DecimalValue(z) == 0
  {
    if k == 0 then [] else
    var z := Zeros(k - 1);
    DecimalAppend(z, 0);
    z + ['0']
  }

  function PadEnd(s: string, k: nat): (r: string)
    requires |s| <= k
    ensures |r| == k
  {
    s + Zeros(k - |s|)
  }

  function PadStart(s: string, k: nat): (r: string)
    requires |s| <= k
    ensures |r| == k
  {
    Zeros(k - |s|) + s
  }

  lemma PadValues(s: string, k: nat)
    requires AllDigits(s) && |s| <= k
    ensures AllDigits(PadEnd(s, k)) && AllDigits(PadStart(s, k))
    ensures DecimalValue(PadStart(s, k)) == DecimalValue(s)
    ensures DecimalValue(PadEnd(s, k)) == DecimalValue(s) * Pow10(k - |s|)
  {
    DecimalConcat(s, Zeros(k - |s|));
    DecimalConcat(Zeros(k - |s|), s);
  }

  function StripTrailingZeros(s: string): (r: string)
    ensures |r| <= |s| && r == s[..|r|]
    ensures r != [] ==> r[|r| - 1] != '0'
  {
    if s != [] && s[|s| - 1] == '0' then StripTrailingZeros(s[..|s| - 1]) else s
  }

  lemma {:induction false} StripValue(s: string)
    requires AllDigits(s)
    ensures AllDigits(StripTrailingZeros(s))
    ensures var r := StripTrailingZeros(s); DecimalValue(r) * Pow10(|s| - |r|) == DecimalValue(s)
  {
    if s != [] && s[|s| - 1] == '0' {
      var t := s[..|s| - 1];
      StripValue(t);
      var r := StripTrailingZeros(t);
      TimesTen(DecimalValue(r), Pow10(|t| - |r|));
    }
  }

  lemma OneDigit(c: char)
    requires IsDigit(c)
    ensures DecimalValue([c]) == DigitOf(c)
  {
    assert [c][..0] == "";
  }

  lemma ZeroInFront(s: string)
    requires AllDigits(s)
    ensures AllDigits("0" + s) && DecimalValue("0" + s) == DecimalValue(s)
  {
    DecimalConcat("0", s);
    assert "0"[..0] == "";
    assert DecimalValue("0") == 0;
  }
}
