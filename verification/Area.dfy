/**
 * Land area on two fixed-point scales: parsing and printing decimal text, converting between units,
 * and the one exact rational that prices a plot.
 */
module Area {
  import opened Common
  import opened Digits
  import opened Rounding
  import opened DecimalText
  import Money

  datatype AreaUnit = SQFT | SQYD | SQM | ACRE | GUNTA

  const AREA_SCALE: int := 1000000
  const SQFT_SCALE: int := 10000000000

  function SqftPerUnitScaled(unit: AreaUnit): int {
    match unit
    case SQFT => 10000000000
    case SQYD => 90000000000
    case GUNTA => 10890000000000
    case ACRE => 435600000000000
    case SQM => 107639104167
  }

  // ---------------------------------------------------------------- rounding division

  /** Quotient and doubled remainder, signs handled apart: the formulation this module has. */
  function DivRoundHalfUp(num: int, den: int): (r: int)
    requires den != 0
    ensures IsHalfUp(num, den, r)
  {
    var negative := (num < 0) != (den < 0);
    var absNum, absDen := Abs(num), Abs(den);
    var quotient, remainder := absNum / absDen, absNum % absDen;
    var rounded := if remainder * 2 >= absDen then quotient + 1 else quotient;
    QuotientRounded(absNum, absDen);
    HalfUpAllSigns(num, den, rounded);
    if negative then -rounded else rounded
  }

  lemma QuotientRounded(n: int, d: int)
    requires n >= 0 && d > 0
    ensures IsHalfUp(n, d, if (n % d) * 2 >= d then n / d + 1 else n / d)
  {
    DivMod(n, d);
    var x := (n / d) * d;
    assert (n / d + 1) * d == x + d;
    assert x >= 0;
  }

  lemma HalfUpAllSigns(n: int, d: int, r: int)
    requires d != 0 && IsHalfUp(Abs(n), Abs(d), r)
    ensures IsHalfUp(n, d, if (n < 0) != (d < 0) then -r else r)
  {
    SignedProducts(r, Abs(d));
  }

  /** Area and money round alike, for every numerator and every non-zero denominator. */
  lemma RoundingsAgree(num: int, den: int)
    requires den != 0
    ensures DivRoundHalfUp(num, den) == Money.RoundedDiv(num, den)
  {
    HalfUpUnique(num, den, DivRoundHalfUp(num, den), Money.RoundedDiv(num, den));
  }

  // ---------------------------------------------------------------- parsing: what the text means

  /** `s.split('.')[0]`. */
  function BeforeDot(s: string): (r: string)
    ensures |r| <= |s| && r == s[..|r|]
    ensures |r| < |s| ==> s[|r|] == '.'
    ensures '.' !in r
  {
    if s == [] || s[0] == '.' then [] else [s[0]] + BeforeDot(s[1..])
  }

  /** `s.split('.')[1]`, or nothing. */
  function AfterDot(s: string): string {
    var n := |BeforeDot(s)|;
    if n < |s| then BeforeDot(s[n + 1..]) else []
  }

  predicate Negative(text: string) {
    text != [] && text[0] == '-'
  }

  function WholeDigits(text: string): string {
    var whole := BeforeDot(text);
    var magnitude := if Negative(whole) then whole[1..] else whole;
    if magnitude == [] then "0" else magnitude
  }

  function DigitPrefix(s: string): (r: string)
    ensures |r| <= |s| && r == s[..|r|] && AllDigits(r)
    ensures |r| < |s| ==> !IsDigit(s[|r|])
  {
    if s == [] || !IsDigit(s[0]) then [] else [s[0]] + DigitPrefix(s[1..])
  }

  /** The digits BigInt will see are digits: the whole part, and the fraction's first six places. */
  predicate Readable(text: string) {
    && AllDigits(WholeDigits(text))
    && (|DigitPrefix(AfterDot(text))| >= 6 || DigitPrefix(AfterDot(text)) == AfterDot(text))
  }

  /** The text's value times 10^6, rounded half away from zero: a definition that parses nothing. */
  function AreaValue(text: string): Option<int> {
    if !Readable(text) then None else
    var w, f := WholeDigits(text), DigitPrefix(AfterDot(text));
    var m := DivRoundHalfUp(DecimalValue(w + f) * AREA_SCALE, Pow10(|f|));
    Some(if Negative(BeforeDot(text)) then -m else m)
  }

  // ---------------------------------------------------------------- parsing: the code

  /** Adds one unit in the last place, digit by digit, least significant first. */
  method CarryThrough(arr: array<char>) returns (carry: nat)
    requires AllDigits(arr[..])
    modifies arr
    ensures AllDigits(arr[..])
    ensures carry <= 1
    ensures LittleValue(arr[..]) + carry * Pow10(arr.Length) == old(LittleValue(arr[..])) + 1
  {
    carry := 1;
    var i := 0;
    ghost var before := arr[..];
    while i < arr.Length && carry != 0
      invariant 0 <= i <= arr.Length && carry <= 1
      invariant AllDigits(arr[..])
      invariant LittleValue(arr[..]) + carry * Pow10(i) == LittleValue(before) + 1
    {
      assert IsDigit(arr[..][i]);
      var d := DigitOf(arr[i]) + carry;
      LittleUpdate(arr[..], i, CharOf(d % 10));
      CarryStep(d - carry, carry, Pow10(i));
      arr[i] := CharOf(d % 10);
      carry := d / 10;
      i := i + 1;
    }
  }

  lemma CarryStep(x: int, carry: int, p: int)
    requires 0 <= x <= 9 && 0 <= carry <= 1
    ensures ((x + carry) % 10 - x) * p + ((x + carry) / 10) * (10 * p) == carry * p
  {
    var d := x + carry;
    assert (d % 10 - x) * p + (d / 10) * (10 * p) == (d % 10 - x + 10 * (d / 10)) * p;
  }

  /** The six fraction digits plus one: split, reverse, carry, reverse, join. */
  method IncrementPlaces(fracDigits: string) returns (digits: string, carry: nat)
    requires AllDigits(fracDigits)
    ensures AllDigits(digits) && |digits| == |fracDigits|
    ensures DecimalValue(digits) + carry * Pow10(|fracDigits|) == DecimalValue(fracDigits) + 1
    ensures carry <= 1 && (carry == 1 ==> DecimalValue(digits) == 0)
  {
    hide DecimalValue, LittleValue, Reversed;
    ReversedValue(fracDigits);
    var arr := new char[|fracDigits|](i requires 0 <= i < |fracDigits| => Reversed(fracDigits)[i]);
    assert arr[..] == Reversed(fracDigits);
    carry := CarryThrough(arr);
    ReversedValue(arr[..]);
    digits := Reversed(arr[..]);
    DecimalBound(fracDigits);
  }

  method ToAreaScaled(text: string) returns (r: Option<int>)
    ensures r == AreaValue(text)
  {
    hide DivRoundHalfUp, DecimalValue, DigitPrefix, BeforeDot, AfterDot;
    var whole, frac := BeforeDot(text), AfterDot(text);
    var sign := if Negative(whole) then -1 else 1;
    var wholeAbs := if Negative(whole) then whole[1..] else whole;
    if wholeAbs == "" {
      wholeAbs := "0";
    }
    ghost var f := DigitPrefix(frac);
    var fracDigits := PadEnd(frac[..Min(6, |frac|)], 6);
    KeptDigits(frac);
    if !AllDigits(wholeAbs) || !AllDigits(fracDigits) {
      return None;
    }
    ScaledValue(wholeAbs, f);
    SixPlaces();
    if |frac| > 6 && IsDigit(frac[6]) && DigitOf(frac[6]) >= 5 {
      var carry;
      fracDigits, carry := IncrementPlaces(fracDigits);
      if carry != 0 {
        return Some(sign * (DecimalValue(wholeAbs) + 1) * AREA_SCALE);
      }
    }
    return Some(sign * (DecimalValue(wholeAbs) * AREA_SCALE + DecimalValue(fracDigits)));
  }

  lemma SixPlaces()
    ensures Pow10(6) == AREA_SCALE
  {
    assert Pow10(3) == 1000;
    assert Pow10(6) == 1000 * Pow10(3);
  }

  /** The six kept places are digits exactly when the text is readable there. */
  lemma KeptDigits(frac: string)
    ensures var f, kept := DigitPrefix(frac), PadEnd(frac[..Min(6, |frac|)], 6);
            && (AllDigits(kept) <==> |f| >= 6 || f == frac)
            && (AllDigits(kept) ==> kept == PadEnd(f[..Min(6, |f|)], 6))
  {
    var f, head := DigitPrefix(frac), frac[..Min(6, |frac|)];
    var kept := PadEnd(head, 6);
    assert kept[..|head|] == head;
    if |f| < 6 && f != frac {
      assert kept[|f|] == frac[|f|];
    } else {
      assert f[..Min(6, |f|)] == head;
      assert forall i :: 0 <= i < |head| ==> IsDigit(f[i]) && head[i] == f[i];
      PadValues(head, 6);
    }
  }

  /** Cutting to six places and looking at the seventh is rounding half up. */
  lemma ScaledValue(w: string, f: string)
    requires AllDigits(w) && AllDigits(f)
    ensures AllDigits(w + f) && AllDigits(PadEnd(f[..Min(6, |f|)], 6))
    ensures DivRoundHalfUp(DecimalValue(w + f) * AREA_SCALE, Pow10(|f|))
         == DecimalValue(w) * AREA_SCALE + DecimalValue(PadEnd(f[..Min(6, |f|)], 6))
            + if |f| > 6 && DigitOf(f[6]) >= 5 then 1 else 0
  {
    if |f| <= 6 {
      assert f[..|f|] == f;
      ShortFraction(w, f);
    } else {
      LongFraction(w, f);
    }
  }

  lemma ShortFraction(w: string, f: string)
    requires AllDigits(w) && AllDigits(f) && |f| <= 6
    ensures AllDigits(w + f) && AllDigits(PadEnd(f, 6))
    ensures DivRoundHalfUp(DecimalValue(w + f) * AREA_SCALE, Pow10(|f|))
         == DecimalValue(w) * AREA_SCALE + DecimalValue(PadEnd(f, 6))
  {
    hide DivRoundHalfUp, DecimalValue;
    DecimalConcat(w, f);
    PadValues(f, 6);
    SixPlaces();
    Pow10Sum(|f|, 6 - |f|);
    ShortRounding(DecimalValue(w), DecimalValue(f), Pow10(|f|), Pow10(6 - |f|));
  }

  lemma ShortRounding(W: int, F: int, d: int, e: int)
    requires d > 0 && d * e == AREA_SCALE
    ensures DivRoundHalfUp((W * d + F) * AREA_SCALE, d) == W * AREA_SCALE + F * e
  {
    ExactQuotient(W, F, d, e);
    ExactRounding(W * (d * e) + F * e, d);
  }

  lemma ExactRounding(q: int, d: int)
    requires d > 0
    ensures DivRoundHalfUp(q * d, d) == q
  {
    HalfUpUnique(q * d, d, q, DivRoundHalfUp(q * d, d));
  }

  lemma ExactQuotient(W: int, F: int, d: int, e: int)
    ensures (W * d + F) * (d * e) == (W * (d * e) + F * e) * d
  {
    var x := W * d;
    assert (x + F) * (d * e) == x * (d * e) + F * (d * e);
    assert x * (d * e) == (W * (d * e)) * d;
    assert F * (d * e) == (F * e) * d;
    assert (W * (d * e) + F * e) * d == (W * (d * e)) * d + (F * e) * d;
  }

  lemma LongFraction(w: string, f: string)
    requires AllDigits(w) && AllDigits(f) && |f| > 6
    ensures AllDigits(w + f) && AllDigits(PadEnd(f[..6], 6))
    ensures DivRoundHalfUp(DecimalValue(w + f) * AREA_SCALE, Pow10(|f|))
         == DecimalValue(w) * AREA_SCALE + DecimalValue(PadEnd(f[..6], 6)) + if DigitOf(f[6]) >= 5 then 1 else 0
  {
    hide DivRoundHalfUp, DecimalValue;
    var head, rest, n := f[..6], f[6..], |f| - 6;
    assert f == head + rest && w + f == (w + head) + rest;
    DecimalConcat(w, head);
    DecimalConcat(w + head, rest);
    PadValues(head, 6);
    SixPlaces();
    Pow10Sum(n, 6);
    SeventhDigitDecides(rest);
    DecimalBound(rest);
    LongRounding(DecimalValue(w + head), Pow10(n), DecimalValue(rest), if DigitOf(f[6]) >= 5 then 1 else 0);
  }

  lemma LongRounding(q: int, d: int, r: int, up: int)
    requires q >= 0 && 0 <= r < d
    requires up == if 2 * r >= d then 1 else 0
    ensures d * AREA_SCALE > 0
    ensures DivRoundHalfUp((q * d + r) * AREA_SCALE, d * AREA_SCALE) == q + up
  {
    RoundedByRemainder(q, d, r, up);
    var n := q * d + r;
    HalfUpScaled(n, d, AREA_SCALE, q + up);
    HalfUpUnique(n * AREA_SCALE, d * AREA_SCALE, q + up, DivRoundHalfUp(n * AREA_SCALE, d * AREA_SCALE));
  }

  lemma RoundedByRemainder(q: int, d: int, r: int, up: int)
    requires q >= 0 && 0 <= r < d
    requires up == if 2 * r >= d then 1 else 0
    ensures IsHalfUp(q * d + r, d, q + up)
  {
    var x := q * d;
    assert x >= 0;
    assert (q + 1) * d == x + d;
  }

  /** The rest is at least half a unit exactly when its first digit is 5 or more. */
  lemma SeventhDigitDecides(rest: string)
    requires AllDigits(rest) && rest != []
    ensures 2 * DecimalValue(rest) >= Pow10(|rest|) <==> DigitOf(rest[0]) >= 5
  {
    hide DecimalValue;
    var first, tail := [rest[0]], rest[1..];
    assert rest == first + tail;
    OneDigit(rest[0]);
    DecimalConcat(first, tail);
    DecimalBound(tail);
    HalfByFirstDigit(DigitOf(rest[0]), Pow10(|tail|), DecimalValue(tail));
  }

  lemma HalfByFirstDigit(d: int, p: int, t: int)
    requires 0 <= t < p
    ensures 2 * (d * p + t) >= 10 * p <==> d >= 5
  {
    Steps(d, 5, p);
  }

  // ---------------------------------------------------------------- printing

  function FromAreaScaled(scaled: int): string {
    var abs := Abs(scaled);
    var whole, frac := abs / AREA_SCALE, abs % AREA_SCALE;
    SixPlaces();
    NatTextLength(frac, 6);
    var fracStr := StripTrailingZeros(PadStart(NatText(frac), 6));
    var body := if fracStr != [] then NatText(whole) + "." + fracStr else NatText(whole);
    if scaled < 0 then "-" + body else body
  }

  lemma {:induction false} BeforeDotOf(s: string, t: string)
    requires '.' !in s
    requires t == [] || t[0] == '.'
    ensures BeforeDot(s + t) == s
  {
    if s == [] {
      assert s + t == t;
    } else {
      assert (s + t)[1..] == s[1..] + t;
      BeforeDotOf(s[1..], t);
    }
  }

  lemma {:induction false} DigitPrefixOf(s: string)
    requires AllDigits(s)
    ensures DigitPrefix(s) == s
  {
    if s != [] {
      DigitPrefixOf(s[1..]);
    }
  }

  /** A dot-free front and a dotless fraction come apart where they were joined. */
  lemma SplitAtDot(front: string, f: string)
    requires '.' !in front && '.' !in f
    ensures BeforeDot(front + "." + f) == front && AfterDot(front + "." + f) == f
    ensures BeforeDot(front) == front && AfterDot(front) == ""
  {
    BeforeDotOf(front, "." + f);
    assert front + "." + f == front + ("." + f);
    assert (front + "." + f)[|front| + 1..] == f;
    BeforeDotOf(f, []);
    assert f + [] == f;
    BeforeDotOf(front, []);
    assert front + [] == front;
  }

  lemma PartsOfPrinted(w: string, f: string, negative: bool)
    requires AllDigits(w) && AllDigits(f) && w != []
    ensures var body := if f != [] then w + "." + f else w;
            var text := if negative then "-" + body else body;
            && WholeDigits(text) == w && AfterDot(text) == f && DigitPrefix(f) == f
            && Negative(BeforeDot(text)) == negative
  {
    hide BeforeDot, AfterDot, DigitPrefix;
    DigitPrefixOf(f);
    var front := if negative then "-" + w else w;
    var body := if f != [] then w + "." + f else w;
    var text := if negative then "-" + body else body;
    assert text == if f != [] then front + "." + f else front;
    SplitAtDot(front, f);
    SignOfFront(w, negative);
  }

  lemma SignOfFront(w: string, negative: bool)
    requires AllDigits(w) && w != []
    ensures var front := if negative then "-" + w else w;
            && Negative(front) == negative
            && (if negative then front[1..] else front) == w
  {
    assert IsDigit(w[0]);
  }

  /** The value of a text put together from a whole part and at most six fraction digits. */
  lemma ValueOfPrinted(w: string, f: string, negative: bool)
    requires AllDigits(w) && AllDigits(f) && w != [] && |f| <= 6
    ensures AllDigits(PadEnd(f, 6))
    ensures var body := if f != [] then w + "." + f else w;
            var m := DecimalValue(w) * AREA_SCALE + DecimalValue(PadEnd(f, 6));
            AreaValue(if negative then "-" + body else body) == Some(if negative then -m else m)
  {
    hide AreaValue, DecimalValue, PadEnd, WholeDigits, Negative, BeforeDot, AfterDot, DigitPrefix;
    PartsOfPrinted(w, f, negative);
    PadValues(f, 6);
    var body := if f != [] then w + "." + f else w;
    ValueOfParts(if negative then "-" + body else body, w, f, negative);
  }

  lemma ValueOfParts(text: string, w: string, f: string, negative: bool)
    requires AllDigits(w) && AllDigits(f) && |f| <= 6 && AllDigits(PadEnd(f, 6))
    requires WholeDigits(text) == w && AfterDot(text) == f && DigitPrefix(f) == f && Negative(BeforeDot(text)) == negative
    ensures var m := DecimalValue(w) * AREA_SCALE + DecimalValue(PadEnd(f, 6));
            AreaValue(text) == Some(if negative then -m else m)
  {
    hide DivRoundHalfUp, BeforeDot, AfterDot, DigitPrefix, DecimalValue, WholeDigits, Negative, PadEnd, AllDigits;
    assert f[..Min(6, |f|)] == f;
    ScaledValue(w, f);
  }

  /** Parsing what was printed gives the number back, for every integer. */
  lemma PrintedParsesBack(x: int)
    ensures AreaValue(FromAreaScaled(x)) == Some(x)
  {
    hide AreaValue, StripTrailingZeros, DecimalValue, PadStart, PadEnd, NatText;
    var abs := Abs(x);
    var whole, frac := abs / AREA_SCALE, abs % AREA_SCALE;
    SixPlaces();
    NatTextLength(frac, 6);
    var padded := PadStart(NatText(frac), 6);
    PadValues(NatText(frac), 6);
    StripValue(padded);
    PadValues(StripTrailingZeros(padded), 6);
    ValueOfPrinted(NatText(whole), StripTrailingZeros(padded), x < 0);
  }

  /** The printed text is the shortest: no leading zeros, no trailing zeros, no point without a fraction, at most six places. */
  lemma PrintedForm(x: int) returns (w: string, f: string)
    ensures FromAreaScaled(x) == (if x < 0 then "-" else "") + w + (if f == "" then "" else "." + f)
    ensures w != "" && AllDigits(w) && (w == "0" || w[0] != '0')
    ensures AllDigits(f) && |f| <= 6 && (f != "" ==> f[|f| - 1] != '0')
  {
    var whole, frac := Abs(x) / AREA_SCALE, Abs(x) % AREA_SCALE;
    SixPlaces();
    NatTextLength(frac, 6);
    var padded := PadStart(NatText(frac), 6);
    PadValues(NatText(frac), 6);
    StripValue(padded);
    NatTextCanonical(whole);
    w, f := NatText(whole), StripTrailingZeros(padded);
    PrintedJoined(x < 0, w, f);
  }

  lemma PrintedJoined(negative: bool, w: string, f: string)
    ensures (if negative then "-" + (if f != "" then w + "." + f else w) else if f != "" then w + "." + f else w)
         == (if negative then "-" else "") + w + (if f == "" then "" else "." + f)
  {
    if negative && f != "" {
      assert "-" + (w + "." + f) == "-" + w + ("." + f);
    } else if f != "" {
      assert w + "." + f == "" + w + ("." + f);
    }
  }

  // ---------------------------------------------------------------- which texts are read, and as what

  /**
   * Behind the whole digits: nothing, or a point, fraction digits f, and an end or another point; after six
   * fraction digits anything may follow.
   */
  ghost predicate Fraction(tail: string, f: string) {
    AllDigits(f) &&
    if tail == "" then f == ""
    else
      && tail[0] == '.' && |tail| >= 1 + |f| && tail[1..1 + |f|] == f
      && var rest := tail[1 + |f|..];
         rest == "" || rest[0] == '.' || (|f| >= 6 && !IsDigit(rest[0]))
  }

  /** The text is a sign, whole digits w, and a fraction f. */
  ghost predicate Reads(text: string, negative: bool, w: string, f: string, tail: string) {
    AllDigits(w) && Fraction(tail, f) && text == (if negative then "-" else "") + w + tail
  }

  lemma {:induction false} BeforeDotJoined(s: string, t: string)
    requires '.' !in s
    ensures BeforeDot(s + t) == s + BeforeDot(t)
  {
    if s == [] {
      assert s + t == t;
    } else {
      assert (s + t)[1..] == s[1..] + t;
      BeforeDotJoined(s[1..], t);
    }
  }

  lemma {:induction false} DigitPrefixJoined(f: string, g: string)
    requires AllDigits(f) && (g == "" || !IsDigit(g[0]))
    ensures DigitPrefix(f + g) == f
  {
    if f == "" {
      assert f + g == g;
    } else {
      assert IsDigit(f[0]) && (f + g)[1..] == f[1..] + g;
      DigitPrefixJoined(f[1..], g);
    }
  }

  lemma FractionParts(tail: string, f: string)
    requires Fraction(tail, f) && tail != ""
    ensures var after := BeforeDot(tail[1..]);
            DigitPrefix(after) == f && (|f| >= 6 || f == after)
  {
    var rest := tail[1 + |f|..];
    assert tail[1..] == f + rest;
    DigitsHaveNoDot(f);
    BeforeDotJoined(f, rest);
    DigitPrefixJoined(f, BeforeDot(rest));
    assert |f| < 6 ==> BeforeDot(rest) == "";
    assert f + "" == f;
  }

  lemma DigitsHaveNoDot(s: string)
    requires AllDigits(s)
    ensures '.' !in s
  {
  }

  lemma WholeParts(text: string, negative: bool, w: string, tail: string)
    requires AllDigits(w) && (tail == "" || tail[0] == '.')
    requires text == (if negative then "-" else "") + w + tail
    ensures WholeDigits(text) == (if w == "" then "0" else w) && Negative(BeforeDot(text)) == negative
    ensures AfterDot(text) == if tail == "" then "" else BeforeDot(tail[1..])
  {
    hide BeforeDot;
    var front := (if negative then "-" else "") + w;
    DigitsHaveNoDot(w);
    BeforeDotOf(front, tail);
    assert text == front + tail;
    assert negative ==> front[1..] == w;
    assert w != "" ==> IsDigit(w[0]);
    assert tail != "" ==> text[|front| + 1..] == tail[1..];
  }

  /** A text read as sign, w and f is worth w.f times 10^6, rounded half away from zero, whatever the number of digits. */
  lemma TextIsWorth(text: string, negative: bool, w: string, f: string, tail: string)
    requires Reads(text, negative, w, f, tail)
    ensures AllDigits(w + f) && AreaValue(text).Some?
    ensures var v := DecimalValue(w + f) * 1000000;
            IsHalfUp(if negative then -v else v, Pow10(|f|), AreaValue(text).value)
  {
    hide BeforeDot, DigitPrefix, DivRoundHalfUp, DecimalValue, WholeDigits, Negative, AfterDot, IsHalfUp, AreaValue;
    WholeParts(text, negative, w, tail);
    if tail == "" {
      DigitPrefixOf(f);
    } else {
      FractionParts(tail, f);
    }
    var whole := if w == "" then "0" else w;
    WorthOfParts(text, whole, f, negative);
    ZeroInFront(f);
    assert w == "" ==> w + f == f;
    assert DecimalValue(whole + f) == DecimalValue(w + f);
    SignedRounding(DecimalValue(w + f) * AREA_SCALE, Pow10(|f|), negative);
  }

  lemma WorthOfParts(text: string, whole: string, f: string, negative: bool)
    requires AllDigits(whole) && AllDigits(f)
    requires WholeDigits(text) == whole && DigitPrefix(AfterDot(text)) == f && (|f| >= 6 || f == AfterDot(text))
    requires Negative(BeforeDot(text)) == negative
    ensures var m := DivRoundHalfUp(DecimalValue(whole + f) * AREA_SCALE, Pow10(|f|));
            AreaValue(text) == Some(if negative then -m else m)
  {
    hide BeforeDot, DigitPrefix, DivRoundHalfUp, DecimalValue, WholeDigits, Negative, AfterDot;
  }

  lemma SignedRounding(v: int, d: int, negative: bool)
    requires d > 0
    ensures var m := DivRoundHalfUp(v, d); IsHalfUp(if negative then -v else v, d, if negative then -m else m)
  {
    hide DivRoundHalfUp;
    HalfUpSigns(v, d, DivRoundHalfUp(v, d));
  }

  /** And only such texts are read: every other one is refused. */
  lemma ReadableParts(text: string) returns (negative: bool, w: string, f: string, tail: string)
    requires AreaValue(text).Some?
    ensures Reads(text, negative, w, f, tail)
  {
    ReadableIs(text);
    hide AreaValue, BeforeDot, DigitPrefix, AllDigits, Fraction, Readable, WholeDigits;
    var whole := BeforeDot(text);
    negative := Negative(whole);
    w, tail, f := if negative then whole[1..] else whole, text[|whole|..], DigitPrefix(AfterDot(text));
    SignAndDigits(whole);
    CutAt(text, |whole|);
    if tail == "" {
      NoFraction(f);
    } else {
      RestOfFraction(text, |whole|, f);
    }
  }

  lemma ReadableIs(text: string)
    requires AreaValue(text).Some?
    ensures var whole, f := BeforeDot(text), DigitPrefix(AfterDot(text));
            && AllDigits(if Negative(whole) then whole[1..] else whole)
            && (|f| >= 6 || f == AfterDot(text))
  {
    hide DivRoundHalfUp, DecimalValue, BeforeDot, DigitPrefix, AfterDot;
  }

  lemma NoFraction(f: string)
    ensures f == DigitPrefix("") ==> f == "" && Fraction("", f)
  {
  }

  lemma CutAt(text: string, n: nat)
    requires n <= |text|
    ensures text == text[..n] + text[n..]
    ensures n < |text| ==> text[n..][0] == text[n] && text[n..][1..] == text[n + 1..]
  {
  }

  lemma SignAndDigits(whole: string)
    ensures var negative := Negative(whole);
            whole == (if negative then "-" else "") + if negative then whole[1..] else whole
  {
    assert whole != "" ==> whole == [whole[0]] + whole[1..];
  }

  lemma RestOfFraction(text: string, n: nat, f: string)
    requires n < |text| && text[n] == '.'
    requires f == DigitPrefix(BeforeDot(text[n + 1..])) && (|f| >= 6 || f == BeforeDot(text[n + 1..]))
    ensures Fraction(text[n..], f)
  {
    hide BeforeDot, DigitPrefix;
    var later, tail := text[n + 1..], text[n..];
    CutAt(text, n);
    var b := BeforeDot(later);
    PrefixOfPrefix(f, b, later);
    assert tail[1..] == later;
    SliceBehind(tail, later, |f|);
  }

  lemma PrefixOfPrefix(f: string, b: string, s: string)
    requires |f| <= |b| <= |s| && f == b[..|f|] && b == s[..|b|]
    ensures f == s[..|f|]
    ensures |f| < |b| ==> s[|f|] == b[|f|]
  {
  }

  lemma SliceBehind(tail: string, later: string, k: nat)
    requires tail != "" && tail[1..] == later && k <= |later|
    ensures tail[1..1 + k] == later[..k] && tail[1 + k..] == later[k..]
  {
  }

  // ---------------------------------------------------------------- unit conversion

  /** An acre is 4840 square yards or 40 guntas, a square yard 9 square feet; a square foot is 0.09290304 square metres. */
  lemma UnitsAre()
    ensures SqftPerUnitScaled(SQFT) == SQFT_SCALE && SqftPerUnitScaled(SQYD) == 9 * SqftPerUnitScaled(SQFT)
    ensures SqftPerUnitScaled(ACRE) == 4840 * SqftPerUnitScaled(SQYD) == 40 * SqftPerUnitScaled(GUNTA)
    ensures IsHalfUp(SQFT_SCALE * 100000000, 9290304, SqftPerUnitScaled(SQM))
  {
  }

  function ConvertToSqftScaled(entered: int, unit: AreaUnit): (r: int)
    ensures IsHalfUp(entered * SqftPerUnitScaled(unit), SQFT_SCALE, r)
  {
    DivRoundHalfUp(entered * SqftPerUnitScaled(unit), SQFT_SCALE)
  }

  function ConvertFromSqftScaled(sqft: int, unit: AreaUnit): (r: int)
    ensures IsHalfUp(sqft * SQFT_SCALE, SqftPerUnitScaled(unit), r)
  {
    DivRoundHalfUp(sqft * SQFT_SCALE, SqftPerUnitScaled(unit))
  }

  /** An entered area survives the trip to square feet and back, in every unit and for either sign. */
  lemma ConversionRoundTrip(entered: int, unit: AreaUnit)
    ensures ConvertFromSqftScaled(ConvertToSqftScaled(entered, unit), unit) == entered
  {
    var f, y := SqftPerUnitScaled(unit), ConvertToSqftScaled(entered, unit);
    if unit == SQFT {
      ExactRounding(entered, f);
      ExactRounding(y, f);
    } else {
      // the rounding error of at most half a sqft step is less than half a step of the larger unit
      assert 2 * Abs(entered * f - y * SQFT_SCALE) < f;
      assert IsHalfUp(y * SQFT_SCALE, f, entered);
      HalfUpUnique(y * SQFT_SCALE, f, entered, ConvertFromSqftScaled(y, unit));
    }
  }

  // ---------------------------------------------------------------- pricing

  function ComputeBaseAmountPaise(ratePaise: int, rateUnit: AreaUnit, area: int, areaUnit: AreaUnit): (r: int)
    ensures IsHalfUp(ratePaise * area * SqftPerUnitScaled(areaUnit), AREA_SCALE * SqftPerUnitScaled(rateUnit), r)
  {
    DivRoundHalfUp(ratePaise * area * SqftPerUnitScaled(areaUnit), AREA_SCALE * SqftPerUnitScaled(rateUnit))
  }

  /** When the area is entered in the unit of the rate, the unit's factor plays no part. */
  lemma MatchedUnitsCancel(ratePaise: int, area: int, unit: AreaUnit)
    ensures ComputeBaseAmountPaise(ratePaise, unit, area, unit) == DivRoundHalfUp(ratePaise * area, AREA_SCALE)
  {
    var n, f := ratePaise * area, SqftPerUnitScaled(unit);
    var r := DivRoundHalfUp(n, AREA_SCALE);
    HalfUpScaled(n, AREA_SCALE, f, r);
    HalfUpUnique(n * f, AREA_SCALE * f, r, ComputeBaseAmountPaise(ratePaise, unit, area, unit));
  }

  /** Saying the same land in another unit of area does not change its price. */
  lemma PriceIndependentOfUnit(ratePaise: int, rateUnit: AreaUnit, a: int, ua: AreaUnit, b: int, ub: AreaUnit)
    requires a * SqftPerUnitScaled(ua) == b * SqftPerUnitScaled(ub)
    ensures ComputeBaseAmountPaise(ratePaise, rateUnit, a, ua) == ComputeBaseAmountPaise(ratePaise, rateUnit, b, ub)
  {
    var fa, fb := SqftPerUnitScaled(ua), SqftPerUnitScaled(ub);
    Regroup(ratePaise, a, fa);
    Regroup(ratePaise, b, fb);
  }

  /** Nor does saying the same rate per another unit: k times the unit at k times the rate. */
  lemma PriceIndependentOfRateUnit(rate: int, unit: AreaUnit, k: int, wider: AreaUnit, area: int, areaUnit: AreaUnit)
    requires k > 0 && SqftPerUnitScaled(wider) == k * SqftPerUnitScaled(unit)
    ensures ComputeBaseAmountPaise(k * rate, wider, area, areaUnit)
         == ComputeBaseAmountPaise(rate, unit, area, areaUnit)
  {
    var g, f := SqftPerUnitScaled(areaUnit), SqftPerUnitScaled(unit);
    var n, d := rate * area * g, AREA_SCALE * f;
    RateScaled(k, rate, area, g, f);
    HalfUpScaled(n, d, k, ComputeBaseAmountPaise(rate, unit, area, areaUnit));
    HalfUpUnique(n * k, d * k, ComputeBaseAmountPaise(rate, unit, area, areaUnit),
                 ComputeBaseAmountPaise(k * rate, wider, area, areaUnit));
  }

  lemma RateScaled(k: int, rate: int, area: int, g: int, f: int)
    ensures k * rate * area * g == (rate * area * g) * k
    ensures AREA_SCALE * (k * f) == (AREA_SCALE * f) * k
  {
    var x := rate * area;
    assert k * rate * area == k * x;
    assert k * x * g == (x * g) * k;
  }
}
