/**
 * Finding and replacing Aadhaar-like numbers in free text: twelve digits in groups of four, first
 * digit 2 to 9, not touching another digit, with a valid Verhoeff checksum.
 */
module AadhaarGuard {
  import opened Common
  import opened Digits
  import opened Verhoeff

  datatype Match = Match(start: nat, end: nat, digits: string)

  // ---------------------------------------------------------------- the pattern

  predicate IsSeparator(c: char) {
    c == ' ' || c == '-'
  }

  /** `[ -]?` followed by a digit: a separator that is there must be taken, since it is no digit. */
  function SkipSeparator(text: string, i: nat): nat {
    if i < |text| && IsSeparator(text[i]) then i + 1 else i
  }

  predicate FourDigitsAt(text: string, i: nat) {
    && i + 4 <= |text|
    && IsDigit(text[i]) && IsDigit(text[i + 1]) && IsDigit(text[i + 2]) && IsDigit(text[i + 3])
  }

  /** The end of the 4-4-4 window starting at p, so the one way the lookahead can match there. */
  function WindowEnd(text: string, p: nat): (e: Option<nat>)
    ensures e.Some? ==> p + 12 <= e.value <= p + 14 && e.value <= |text|
  {
    if !FourDigitsAt(text, p) || text[p] < '2' then None else
    var a := SkipSeparator(text, p + 4);
    if !FourDigitsAt(text, a) then None else
    var b := SkipSeparator(text, a + 4);
    if !FourDigitsAt(text, b) || (b + 4 < |text| && IsDigit(text[b + 4])) then None else
    Some(b + 4)
  }

  predicate PrecededByDigit(text: string, p: nat) {
    0 < p <= |text| && IsDigit(text[p - 1])
  }

  function StripSeparators(s: string): string {
    if s == [] then []
    else if IsSeparator(s[0]) then StripSeparators(s[1..])
    else [s[0]] + StripSeparators(s[1..])
  }

  predicate WindowChar(c: char) {
    IsDigit(c) || IsSeparator(c)
  }

  lemma {:induction false} StripLeavesDigits(s: string)
    requires forall i :: 0 <= i < |s| ==> WindowChar(s[i])
    ensures AllDigits(StripSeparators(s))
  {
    if s != [] {
      StripLeavesDigits(s[1..]);
    }
  }

  lemma WindowChars(text: string, p: nat)
    requires WindowEnd(text, p).Some?
    ensures var e := WindowEnd(text, p).value;
            && (forall i :: p <= i < e ==> WindowChar(text[i]))
            && IsDigit(text[p]) && IsDigit(text[e - 1])
            && AllDigits(StripSeparators(text[p..e]))
  {
    var a := SkipSeparator(text, p + 4);
    var b := SkipSeparator(text, a + 4);
    StripLeavesDigits(text[p..b + 4]);
  }

  function WindowDigits(text: string, p: nat): (digits: string)
    requires WindowEnd(text, p).Some?
    ensures AllDigits(digits)
  {
    WindowChars(text, p);
    StripSeparators(text[p..WindowEnd(text, p).value])
  }

  /** Pattern and checksum: an Aadhaar-like number starts at p. */
  predicate LikeAt(text: string, p: nat) {
    !PrecededByDigit(text, p) && WindowEnd(text, p).Some? && Valid(WindowDigits(text, p))
  }

  function MatchAt(text: string, p: nat): (m: Match)
    requires LikeAt(text, p)
    ensures m.start == p && p < m.end <= |text|
  {
    Match(p, WindowEnd(text, p).value, WindowDigits(text, p))
  }

  predicate IsMatch(text: string, m: Match) {
    LikeAt(text, m.start) && m == MatchAt(text, m.start)
  }

  // ---------------------------------------------------------------- the pattern, said of the text alone

  /** Nothing, one blank or one hyphen. */
  ghost predicate Separates(s: string) {
    s == "" || s == " " || s == "-"
  }

  ghost predicate FourDigits(g: string) {
    |g| == 4 && AllDigits(g)
  }

  /** These three groups, so separated, are what stands at p, and no digit touches them on either side. */
  ghost predicate Groups(text: string, p: nat, g1: string, s1: string, g2: string, s2: string, g3: string) {
    && FourDigits(g1) && FourDigits(g2) && FourDigits(g3) && Separates(s1) && Separates(s2)
    && '2' <= g1[0]
    && var e := p + |g1 + s1 + g2 + s2 + g3|;
       && e <= |text| && text[p..e] == g1 + s1 + g2 + s2 + g3
       && (p > 0 ==> !IsDigit(text[p - 1])) && (e < |text| ==> !IsDigit(text[e]))
  }

  /** An Aadhaar-like number: three groups of four digits, not starting with 0 or 1, with a valid checksum. */
  ghost predicate AadhaarLike(text: string, m: Match) {
    exists g1, s1, g2, s2, g3 ::
      && Groups(text, m.start, g1, s1, g2, s2, g3)
      && m.end == m.start + |g1 + s1 + g2 + s2 + g3| && m.digits == g1 + g2 + g3
      && Valid(g1 + g2 + g3)
  }

  lemma StripDigits(g: string, rest: string)
    requires AllDigits(g)
    ensures StripSeparators(g + rest) == g + StripSeparators(rest)
  {
    if g != [] {
      assert IsDigit(g[0]) && (g + rest)[1..] == g[1..] + rest;
      StripDigits(g[1..], rest);
    } else {
      assert g + rest == rest;
    }
  }

  lemma StripSeparator(s: string, rest: string)
    requires Separates(s)
    ensures StripSeparators(s + rest) == StripSeparators(rest)
  {
    if s == "" {
      assert s + rest == rest;
    } else {
      assert (s + rest)[1..] == rest;
    }
  }

  lemma StripGroups(g1: string, s1: string, g2: string, s2: string, g3: string)
    requires AllDigits(g1) && AllDigits(g2) && AllDigits(g3) && Separates(s1) && Separates(s2)
    ensures StripSeparators(g1 + s1 + g2 + s2 + g3) == g1 + g2 + g3
  {
    hide StripSeparators, Separates;
    assert g1 + s1 + g2 + s2 + g3 == g1 + (s1 + (g2 + (s2 + g3)));
    StripDigits(g1, s1 + (g2 + (s2 + g3)));
    StripSeparator(s1, g2 + (s2 + g3));
    StripDigits(g2, s2 + g3);
    StripSeparator(s2, g3);
    StripDigits(g3, "");
    assert g3 + "" == g3 && StripSeparators("") == "" by { StripNothing(); }
    assert g3 + StripSeparators("") == g3;
  }

  lemma StripNothing()
    ensures StripSeparators("") == ""
  {
  }

  /** Where the groups and separators stand within their concatenation. */
  lemma Pieces(g1: string, s1: string, g2: string, s2: string, g3: string)
    requires |g1| == |g2| == |g3| == 4
    ensures var w, a, b := g1 + s1 + g2 + s2 + g3, 4 + |s1|, 8 + |s1| + |s2|;
            && w[0..4] == g1 && w[a..a + 4] == g2 && w[b..b + 4] == g3
            && w[4] == (if s1 != "" then s1[0] else g2[0])
            && w[a + 4] == (if s2 != "" then s2[0] else g3[0])
  {
  }

  lemma AfterSeparator(text: string, i: nat, s: string)
    requires Separates(s) && i < |text|
    requires if s != "" then text[i] == s[0] else IsDigit(text[i])
    ensures SkipSeparator(text, i) == i + |s|
  {
  }

  lemma CharsOf(text: string, p: nat, whole: string)
    requires p + |whole| <= |text| && text[p..p + |whole|] == whole
    ensures forall i :: 0 <= i < |whole| ==> text[p + i] == whole[i]
  {
    forall i | 0 <= i < |whole|
      ensures text[p + i] == whole[i]
    {
      assert text[p..p + |whole|][i] == whole[i];
    }
  }

  lemma GroupsThere(text: string, p: nat, g1: string, s1: string, g2: string, s2: string, g3: string)
    requires Groups(text, p, g1, s1, g2, s2, g3)
    ensures var a, b := p + 4 + |s1|, p + 8 + |s1| + |s2|;
            FourDigitsAt(text, p) && FourDigitsAt(text, a) && FourDigitsAt(text, b) && '2' <= text[p]
  {
    hide FourDigitsAt, Separates;
    var whole := g1 + s1 + g2 + s2 + g3;
    CharsOf(text, p, whole);
    Pieces(g1, s1, g2, s2, g3);
    GroupAt(text, p, whole, 0, g1);
    GroupAt(text, p, whole, 4 + |s1|, g2);
    GroupAt(text, p, whole, 8 + |s1| + |s2|, g3);
    assert text[p + 0] == whole[0] == whole[0..4][0];
  }

  lemma SeparatorsThere(text: string, p: nat, g1: string, s1: string, g2: string, s2: string, g3: string)
    requires Groups(text, p, g1, s1, g2, s2, g3)
    ensures var a := p + 4 + |s1|; SkipSeparator(text, p + 4) == a && SkipSeparator(text, a + 4) == a + 4 + |s2|
  {
    hide SkipSeparator, Separates;
    var whole, a := g1 + s1 + g2 + s2 + g3, 4 + |s1|;
    CharsOf(text, p, whole);
    Pieces(g1, s1, g2, s2, g3);
    assert text[p + 4] == whole[4] && text[p + (a + 4)] == whole[a + 4];
    AfterSeparator(text, p + 4, s1);
    AfterSeparator(text, p + a + 4, s2);
  }

  /** Groups of the text are what the window finds. */
  lemma GroupsAreWindow(text: string, p: nat, g1: string, s1: string, g2: string, s2: string, g3: string)
    requires Groups(text, p, g1, s1, g2, s2, g3)
    ensures !PrecededByDigit(text, p)
    ensures WindowEnd(text, p) == Some(p + |g1 + s1 + g2 + s2 + g3|)
  {
    hide SkipSeparator, FourDigitsAt, Separates;
    GroupsThere(text, p, g1, s1, g2, s2, g3);
    SeparatorsThere(text, p, g1, s1, g2, s2, g3);
  }

  lemma GroupAt(text: string, p: nat, whole: string, k: nat, g: string)
    requires FourDigits(g) && k + 4 <= |whole| && p + |whole| <= |text| && whole[k..k + 4] == g
    requires forall i :: 0 <= i < |whole| ==> text[p + i] == whole[i]
    ensures FourDigitsAt(text, p + k)
  {
    forall j | 0 <= j < 4
      ensures text[p + k + j] == g[j]
    {
      assert text[p + (k + j)] == whole[k + j] == whole[k..k + 4][j];
    }
    assert text[p + k + 0] == g[0] && text[p + k + 1] == g[1] && text[p + k + 2] == g[2] && text[p + k + 3] == g[3];
  }

  /** And what the window finds are groups of the text. */
  lemma WindowIsGroups(text: string, p: nat) returns (g1: string, s1: string, g2: string, s2: string, g3: string)
    requires !PrecededByDigit(text, p) && WindowEnd(text, p).Some?
    ensures Groups(text, p, g1, s1, g2, s2, g3)
    ensures WindowEnd(text, p).value == p + |g1 + s1 + g2 + s2 + g3|
  {
    hide SkipSeparator, FourDigitsAt, FourDigits, Separates;
    var a := SkipSeparator(text, p + 4);
    var b := SkipSeparator(text, a + 4);
    DigitsThere(text, p);
    DigitsThere(text, a);
    DigitsThere(text, b);
    SeparatorThere(text, p + 4);
    SeparatorThere(text, a + 4);
    g1, s1, g2, s2, g3 := text[p..p + 4], text[p + 4..a], text[a..a + 4], text[a + 4..b], text[b..b + 4];
    JoinFive(text, p, p + 4, a, a + 4, b, b + 4);
    assert g1[0] == text[p];
  }

  lemma JoinFive(t: string, i: nat, j: nat, k: nat, l: nat, m: nat, n: nat)
    requires i <= j <= k <= l <= m <= n <= |t|
    ensures t[i..n] == t[i..j] + t[j..k] + t[k..l] + t[l..m] + t[m..n]
  {
    JoinTwo(t, i, j, k);
    JoinTwo(t, i, k, l);
    JoinTwo(t, i, l, m);
    JoinTwo(t, i, m, n);
  }

  lemma JoinTwo(t: string, i: nat, j: nat, k: nat)
    requires i <= j <= k <= |t|
    ensures t[i..k] == t[i..j] + t[j..k]
  {
  }

  lemma DigitsThere(text: string, i: nat)
    requires FourDigitsAt(text, i)
    ensures i + 4 <= |text| && FourDigits(text[i..i + 4])
  {
  }

  lemma SeparatorThere(text: string, i: nat)
    requires i <= |text|
    ensures i <= SkipSeparator(text, i) <= |text| && Separates(text[i..SkipSeparator(text, i)])
  {
    var j := SkipSeparator(text, i);
    if j == i {
      assert text[i..i] == "";
    } else {
      assert text[i..i + 1] == [text[i]];
    }
  }

  lemma AadhaarLikeMatches(text: string, m: Match)
    requires AadhaarLike(text, m)
    ensures IsMatch(text, m)
  {
    hide WindowEnd, StripSeparators, Valid, Separates;
    var g1, s1, g2, s2, g3 :|
      && Groups(text, m.start, g1, s1, g2, s2, g3)
      && m.end == m.start + |g1 + s1 + g2 + s2 + g3| && m.digits == g1 + g2 + g3
      && Valid(g1 + g2 + g3);
    GroupsAreWindow(text, m.start, g1, s1, g2, s2, g3);
    WindowDigitsAre(text, m.start, g1, s1, g2, s2, g3);
  }

  lemma MatchesAreAadhaarLike(text: string, m: Match)
    requires IsMatch(text, m)
    ensures AadhaarLike(text, m)
  {
    hide WindowEnd, StripSeparators, Valid, Separates;
    var g1, s1, g2, s2, g3 := WindowIsGroups(text, m.start);
    WindowDigitsAre(text, m.start, g1, s1, g2, s2, g3);
    assert Groups(text, m.start, g1, s1, g2, s2, g3) && m.digits == g1 + g2 + g3;
  }

  /** The matches of the pattern are the Aadhaar-like numbers of the text. */
  lemma MatchIsAadhaarLike(text: string, m: Match)
    ensures IsMatch(text, m) <==> AadhaarLike(text, m)
  {
    hide IsMatch, AadhaarLike;
    if AadhaarLike(text, m) {
      AadhaarLikeMatches(text, m);
    }
    if IsMatch(text, m) {
      MatchesAreAadhaarLike(text, m);
    }
  }

  lemma WindowDigitsAre(text: string, p: nat, g1: string, s1: string, g2: string, s2: string, g3: string)
    requires Groups(text, p, g1, s1, g2, s2, g3) && WindowEnd(text, p) == Some(p + |g1 + s1 + g2 + s2 + g3|)
    ensures WindowDigits(text, p) == g1 + g2 + g3
  {
    hide WindowEnd, StripSeparators;
    StripGroups(g1, s1, g2, s2, g3);
  }

  // ---------------------------------------------------------------- the code

  /** Every match, overlapping windows included, in order of position. */
  method FindAadhaarLikeNumbers(text: string) returns (out: seq<Match>)
    ensures forall m :: m in out <==> AadhaarLike(text, m)
    ensures forall m :: m in out <==> IsMatch(text, m)
    ensures forall i, j :: 0 <= i < j < |out| ==> out[i].start < out[j].start
  {
    hide Valid, WindowEnd, WindowDigits, AadhaarLike;
    out := [];
    for p := 0 to |text|
      invariant forall m :: m in out <==> IsMatch(text, m) && m.start < p
      invariant forall i, j :: 0 <= i < j < |out| ==> out[i].start < out[j].start
    {
      if !PrecededByDigit(text, p) && WindowEnd(text, p).Some? {
        var digits := WindowDigits(text, p);
        var ok := IsValidVerhoeff(digits);
        if ok {
          assert forall i :: 0 <= i < |out| ==> out[i] in out;
          out := out + [Match(p, WindowEnd(text, p).value, digits)];
        }
      }
    }
    forall m
      ensures m in out <==> AadhaarLike(text, m)
    {
      MatchIsAadhaarLike(text, m);
    }
  }

  /** The rewriting as one left-to-right pass: copy, or replace and jump behind the window. */
  function Rewrite(text: string, i: nat, replace: Match -> string): string
    decreases |text| - i
  {
    if i >= |text| then []
    else if LikeAt(text, i) then replace(MatchAt(text, i)) + Rewrite(text, MatchAt(text, i).end, replace)
    else [text[i]] + Rewrite(text, i + 1, replace)
  }

  lemma {:induction false} CopiedUpTo(text: string, i: nat, j: nat, replace: Match -> string)
    requires i <= j <= |text|
    requires forall p :: i <= p < j ==> !LikeAt(text, p)
    ensures Rewrite(text, i, replace) == text[i..j] + Rewrite(text, j, replace)
    decreases j - i
  {
    hide LikeAt, MatchAt;
    if i < j {
      assert Rewrite(text, i, replace) == [text[i]] + Rewrite(text, i + 1, replace);
      CopiedUpTo(text, i + 1, j, replace);
      assert text[i..j] == [text[i]] + text[i + 1..j];
    } else {
      assert text[i..j] == [];
    }
  }

  /** Up to the next match the text is copied, the match is replaced, and the pass goes on behind it. */
  lemma NextMatch(text: string, cursor: nat, m: Match, replace: Match -> string)
    requires IsMatch(text, m) && cursor <= m.start <= |text|
    requires forall p :: cursor <= p < m.start ==> !LikeAt(text, p)
    ensures m.start < m.end <= |text|
    ensures Rewrite(text, cursor, replace) == text[cursor..m.start] + replace(m) + Rewrite(text, m.end, replace)
  {
    hide LikeAt, MatchAt;
    CopiedUpTo(text, cursor, m.start, replace);
  }

  lemma NoMoreMatches(text: string, cursor: nat, replace: Match -> string)
    requires cursor <= |text|
    requires forall p :: cursor <= p < |text| ==> !LikeAt(text, p)
    ensures Rewrite(text, cursor, replace) == text[cursor..]
  {
    hide LikeAt, MatchAt;
    CopiedUpTo(text, cursor, |text|, replace);
    assert Rewrite(text, |text|, replace) == [];
    assert text[cursor..|text|] == text[cursor..];
  }

  /** What the scan found: matches in order of position, the k-th and later holding all from the cursor on. */
  ghost predicate Ahead(text: string, matches: seq<Match>, k: nat, cursor: nat)
    requires k <= |matches|
  {
    forall p: nat :: cursor <= p && LikeAt(text, p) ==>
      exists j :: k <= j < |matches| && matches[j] == MatchAt(text, p)
  }

  lemma AheadStep(text: string, matches: seq<Match>, k: nat, cursor: nat)
    requires k < |matches| && IsMatch(text, matches[k])
    requires forall i, j :: 0 <= i < j < |matches| ==> matches[i].start < matches[j].start
    requires Ahead(text, matches, k, cursor)
    ensures matches[k].start < cursor ==> Ahead(text, matches, k + 1, cursor)
    ensures matches[k].start >= cursor ==>
              && Ahead(text, matches, k + 1, matches[k].end)
              && forall p :: cursor <= p < matches[k].start ==> !LikeAt(text, p)
  {
    hide LikeAt, MatchAt;
    forall p: nat | cursor <= p && LikeAt(text, p)
      ensures matches[k].start <= p
      ensures matches[k].start < p ==> exists j :: k + 1 <= j < |matches| && matches[j] == MatchAt(text, p)
    {
      var j :| k <= j < |matches| && matches[j] == MatchAt(text, p);
    }
  }

  method ReplaceMatches(text: string, replace: Match -> string) returns (r: string)
    ensures r == Rewrite(text, 0, replace)
  {
    hide LikeAt, MatchAt, Rewrite, Ahead, IsMatch;
    var matches := FindAadhaarLikeNumbers(text);
    assert Ahead(text, matches, 0, 0) by { AllAhead(text, matches); }
    if |matches| == 0 {
      NoneAhead(text, matches, 0);
      NoMoreMatches(text, 0, replace);
      assert text[0..] == text;
      return text;
    }
    var out := "";
    var cursor: nat := 0;
    for k := 0 to |matches|
      invariant cursor <= |text|
      invariant Rewrite(text, 0, replace) == out + Rewrite(text, cursor, replace)
      invariant Ahead(text, matches, k, cursor)
    {
      var m := matches[k];
      assert IsMatch(text, m) by { assert m in matches; }
      AheadStep(text, matches, k, cursor);
      if m.start >= cursor {
        MatchInside(text, m);
        NextMatch(text, cursor, m, replace);
        out := out + text[cursor..m.start] + replace(m);
        cursor := m.end;
      }
    }
    NoneAhead(text, matches, cursor);
    NoMoreMatches(text, cursor, replace);
    return out + text[cursor..];
  }

  lemma AllAhead(text: string, matches: seq<Match>)
    requires forall m :: m in matches <==> IsMatch(text, m)
    ensures Ahead(text, matches, 0, 0)
  {
    hide LikeAt, MatchAt;
    forall p: nat | LikeAt(text, p)
      ensures exists j :: 0 <= j < |matches| && matches[j] == MatchAt(text, p)
    {
      assert IsMatch(text, MatchAt(text, p));
      assert MatchAt(text, p) in matches;
    }
  }

  lemma NoneAhead(text: string, matches: seq<Match>, cursor: nat)
    requires Ahead(text, matches, |matches|, cursor)
    ensures forall p :: cursor <= p < |text| ==> !LikeAt(text, p)
  {
    hide LikeAt, MatchAt;
  }

  lemma MatchInside(text: string, m: Match)
    requires IsMatch(text, m)
    ensures m.start <= |text|
  {
    hide LikeAt;
  }

  const AADHAAR_REDACTION := "[Aadhaar-like number removed]"

  function Removed(m: Match): string {
    AADHAAR_REDACTION
  }

  function Redacted(text: string): string {
    Rewrite(text, 0, Removed)
  }

  method RedactAadhaarLike(text: string) returns (r: string)
    ensures r == Redacted(text)
  {
    r := ReplaceMatches(text, Removed);
  }

  // ---------------------------------------------------------------- redaction leaves nothing behind

  /** A replacement that cannot take part in a window: not empty, digit-free, no leading separator. */
  ghost predicate Inert(replace: Match -> string) {
    forall m :: && replace(m) != []
                && !IsSeparator(replace(m)[0])
                && forall i :: 0 <= i < |replace(m)| ==> !IsDigit(replace(m)[i])
  }

  lemma FrontReplaced(text: string, i: nat, replace: Match -> string)
    requires Inert(replace) && i <= |text|
    ensures LikeAt(text, i) ==> var out := Rewrite(text, i, replace); out != [] && !WindowChar(out[0])
  {
    hide LikeAt, MatchAt;
    if LikeAt(text, i) {
      var m := MatchAt(text, i);
      assert Rewrite(text, i, replace)[0] == replace(m)[0];
    }
  }

  /** A front of window characters starts with a copied one. */
  lemma FrontCharCopied(text: string, i: nat, replace: Match -> string)
    requires Inert(replace) && i <= |text|
    requires var out := Rewrite(text, i, replace); out != [] && WindowChar(out[0])
    ensures i < |text| && !LikeAt(text, i)
    ensures Rewrite(text, i, replace) == [text[i]] + Rewrite(text, i + 1, replace)
  {
    hide LikeAt, MatchAt;
    FrontReplaced(text, i, replace);
  }

  lemma ConsAt(c: char, rest: string, k: nat)
    requires k < |rest|
    ensures ([c] + rest)[k + 1] == rest[k]
  {
  }

  lemma ConsSlice(text: string, i: nat, k: nat)
    requires k > 0 && i + k <= |text|
    ensures text[i..i + k] == [text[i]] + text[i + 1..i + k]
  {
  }

  /** Window characters at the front of the output were copied from the input, nothing was replaced. */
  lemma {:induction false} FrontWasCopied(text: string, i: nat, k: nat, replace: Match -> string)
    requires Inert(replace) && i <= |text|
    requires k <= |Rewrite(text, i, replace)|
    requires forall j :: 0 <= j < k ==> WindowChar(Rewrite(text, i, replace)[j])
    ensures i + k <= |text|
    ensures Rewrite(text, i, replace) == text[i..i + k] + Rewrite(text, i + k, replace)
    ensures forall p :: i <= p < i + k ==> !LikeAt(text, p)
    decreases k
  {
    hide LikeAt, MatchAt, WindowChar, Inert, Rewrite;
    if k == 0 {
      assert text[i..i] == [];
    } else {
      FrontCharCopied(text, i, replace);
      var rest := Rewrite(text, i + 1, replace);
      forall j | 0 <= j < k - 1
        ensures WindowChar(rest[j])
      {
        ConsAt(text[i], rest, j);
      }
      FrontWasCopied(text, i + 1, k - 1, replace);
      ConsSlice(text, i, k);
    }
  }

  lemma WindowStops(s: string, p: nat)
    requires WindowEnd(s, p).Some?
    ensures var e := WindowEnd(s, p).value; e < |s| ==> !IsDigit(s[e])
  {
  }

  /** A window at the front of the output was a window of the input, so it would have been replaced. */
  lemma NoneAtFront(text: string, i: nat, replace: Match -> string)
    requires Inert(replace) && i <= |text|
    requires !PrecededByDigit(text, i)
    ensures !LikeAt(Rewrite(text, i, replace), 0)
  {
    hide WindowEnd, WindowDigits, Valid, Inert;
    var out := Rewrite(text, i, replace);
    if WindowEnd(out, 0).Some? {
      var e := WindowEnd(out, 0).value;
      WindowStops(out, 0);
      WindowChars(out, 0);
      FrontWasCopied(text, i, e, replace);
      assert out[..e] == text[i..i + e];
      assert text[i + e - 1] == out[e - 1];
      if i + e < |text| {
        assert PrecededByDigit(text, i + e) && !LikeAt(text, i + e);
        assert out[e] == text[i + e];
      }
      assert out[0..e] == text[i..i + e];
      SameWindow(out, 0, text, i, e);
      assert !LikeAt(text, i);
    }
  }

  lemma SameEnd(s: string, p: nat, t: string, q: nat, n: nat)
    requires WindowEnd(s, p) == Some(p + n) && q + n <= |t|
    requires forall i :: p <= i < p + n ==> s[i] == t[i - p + q]
    requires q + n < |t| ==> !IsDigit(t[q + n])
    ensures WindowEnd(t, q) == Some(q + n)
  {
    hide FourDigitsAt;
    var a := SkipSeparator(s, p + 4);
    var b := SkipSeparator(s, a + 4);
    SameFour(s, p, t, q);
    SameFour(s, a, t, a - p + q);
    SameFour(s, b, t, b - p + q);
    assert SkipSeparator(t, q + 4) == a - p + q;
    assert SkipSeparator(t, a - p + q + 4) == b - p + q;
    assert s[p] == t[q];
  }

  lemma SameFour(s: string, i: nat, t: string, j: nat)
    requires FourDigitsAt(s, i) && j + 4 <= |t|
    requires s[i] == t[j] && s[i + 1] == t[j + 1] && s[i + 2] == t[j + 2] && s[i + 3] == t[j + 3]
    ensures FourDigitsAt(t, j)
  {
  }

  /** Equal characters, and no digit behind them, make the same window. */
  lemma SameWindow(s: string, p: nat, t: string, q: nat, n: nat)
    requires WindowEnd(s, p) == Some(p + n) && q + n <= |t|
    requires s[p..p + n] == t[q..q + n]
    requires q + n < |t| ==> !IsDigit(t[q + n])
    ensures WindowEnd(t, q) == Some(q + n)
    ensures WindowDigits(t, q) == WindowDigits(s, p)
  {
    hide StripSeparators, WindowEnd;
    forall i | p <= i < p + n
      ensures s[i] == t[i - p + q]
    {
      assert s[i] == s[p..p + n][i - p];
    }
    SameEnd(s, p, t, q, n);
  }

  /** A number found behind some prefix is found without it. */
  lemma LikeShift(pre: string, rest: string, q: nat)
    requires |pre| <= q <= |pre| + |rest| && LikeAt(pre + rest, q)
    ensures LikeAt(rest, q - |pre|)
  {
    hide WindowEnd, WindowDigits, Valid;
    var out := pre + rest;
    assert out[q..] == rest[q - |pre|..];
    WindowShift(out, rest, q, q - |pre|);
    if q > |pre| {
      assert out[q - 1] == rest[q - |pre| - 1];
    }
  }

  lemma NoDigitNoWindow(s: string, q: nat)
    requires q < |s| && !IsDigit(s[q])
    ensures !LikeAt(s, q)
  {
  }

  lemma NotAfterDigit(text: string, i: nat, rest: string)
    requires i < |text| && LikeAt([text[i]] + rest, 1)
    ensures !PrecededByDigit(text, i + 1)
  {
  }

  lemma {:induction false} NoneAnywhere(text: string, i: nat, q: nat, replace: Match -> string)
    requires Inert(replace) && i <= |text| && q <= |Rewrite(text, i, replace)|
    requires q == 0 ==> !PrecededByDigit(text, i)
    ensures !LikeAt(Rewrite(text, i, replace), q)
    decreases |text| - i
  {
    hide LikeAt, MatchAt, WindowEnd, PrecededByDigit;
    var out := Rewrite(text, i, replace);
    if q == 0 {
      NoneAtFront(text, i, replace);
    } else if LikeAt(out, q) && LikeAt(text, i) {
      var m := MatchAt(text, i);
      var r, rest := replace(m), Rewrite(text, m.end, replace);
      if q < |r| {
        assert out[q] == r[q];
        NoDigitNoWindow(out, q);
      } else {
        LikeShift(r, rest, q);
        if q > |r| {
          NoneAnywhere(text, m.end, q - |r|, replace);
        } else {
          NoneBehind(text, i, replace);
        }
      }
    } else if LikeAt(out, q) {
      var rest := Rewrite(text, i + 1, replace);
      LikeShift([text[i]], rest, q);
      if q == 1 {
        NotAfterDigit(text, i, rest);
      }
      NoneAnywhere(text, i + 1, q - 1, replace);
    }
  }

  lemma NoneBehind(text: string, i: nat, replace: Match -> string)
    requires Inert(replace) && LikeAt(text, i)
    ensures !LikeAt(Rewrite(text, MatchAt(text, i).end, replace), 0)
  {
    hide WindowEnd, Rewrite;
    BehindMatch(text, i, replace);
  }

  /** Behind a replaced number the input has no digit, so no window can start there. */
  lemma BehindMatch(text: string, i: nat, replace: Match -> string)
    requires Inert(replace) && LikeAt(text, i)
    ensures WindowEnd(Rewrite(text, MatchAt(text, i).end, replace), 0).None?
  {
    FrontDigitCopied(text, MatchAt(text, i).end, replace);
  }

  lemma FrontDigitCopied(text: string, e: nat, replace: Match -> string)
    requires Inert(replace) && e <= |text|
    ensures var rest := Rewrite(text, e, replace);
            rest != [] && IsDigit(rest[0]) ==> e < |text| && rest[0] == text[e]
  {
    var rest := Rewrite(text, e, replace);
    if rest != [] && IsDigit(rest[0]) {
      FrontWasCopied(text, e, 1, replace);
    }
  }

  /** Windows look forward only. */
  lemma WindowShift(s: string, t: string, p: nat, q: nat)
    requires p <= |s| && q <= |t| && s[p..] == t[q..]
    requires WindowEnd(s, p).Some?
    ensures WindowEnd(t, q) == Some(WindowEnd(s, p).value - p + q)
    ensures WindowDigits(t, q) == WindowDigits(s, p)
  {
    hide StripSeparators;
    var n := WindowEnd(s, p).value - p;
    assert s[p..p + n] == s[p..][..n] && t[q..q + n] == t[q..][..n];
    assert p + n < |s| ==> s[p + n] == s[p..][n] && t[q + n] == t[q..][n];
    SameWindow(s, p, t, q, n);
  }

  /** After any inert rewriting, no Aadhaar-like number is left, at any position. */
  lemma RewriteLeavesNone(text: string, replace: Match -> string)
    requires Inert(replace)
    ensures forall p :: !LikeAt(Rewrite(text, 0, replace), p)
  {
    var out := Rewrite(text, 0, replace);
    forall p: nat
      ensures !LikeAt(out, p)
    {
      if p <= |out| {
        NoneAnywhere(text, 0, p, replace);
      }
    }
  }

  lemma NoMatchIsFinal(text: string)
    ensures forall m :: !IsMatch(Redacted(text), m)
    ensures Redacted(Redacted(text)) == Redacted(text)
  {
    assert Inert(Removed);
    RewriteLeavesNone(text, Removed);
    var out := Redacted(text);
    CopiedUpTo(out, 0, |out|, Removed);
  }

  /** Redacted text holds no Aadhaar-like number, and redacting it again changes nothing. */
  lemma RedactionIsFinal(text: string)
    ensures forall m :: !AadhaarLike(Redacted(text), m)
    ensures Redacted(Redacted(text)) == Redacted(text)
  {
    hide IsMatch, AadhaarLike, Redacted;
    NoMatchIsFinal(text);
    forall m
      ensures !AadhaarLike(Redacted(text), m)
    {
      MatchIsAadhaarLike(Redacted(text), m);
    }
  }

  /** Text without an Aadhaar-like number is returned as it is, and only such text is. */
  lemma RedactionKeepsCleanText(text: string)
    ensures (forall m :: !AadhaarLike(text, m)) <==> Redacted(text) == text
  {
    hide LikeAt, MatchAt, AadhaarLike, Rewrite;
    if forall m :: !AadhaarLike(text, m) {
      forall p | 0 <= p < |text|
        ensures !LikeAt(text, p)
      {
        if LikeAt(text, p) {
          MatchIsAadhaarLike(text, MatchAt(text, p));
          LikeIsMatch(text, p);
        }
      }
      NoMoreMatches(text, 0, Removed);
      assert text[0..] == text;
    } else {
      RedactionIsFinal(text);
    }
  }

  lemma LikeIsMatch(text: string, p: nat)
    requires LikeAt(text, p)
    ensures IsMatch(text, MatchAt(text, p))
  {
  }

  // ---------------------------------------------------------------- redaction changes nothing else

  /** Parts of the text in order of position, from the cursor on, none reaching into the next. */
  ghost predicate InOrder(text: string, cursor: nat, ms: seq<Match>)
    decreases |ms|
  {
    && cursor <= |text|
    && (ms == [] || (cursor <= ms[0].start < ms[0].end <= |text| && InOrder(text, ms[0].end, ms[1..])))
  }

  /** The text from the cursor on with these parts replaced and everything between them kept. */
  ghost function Spliced(text: string, cursor: nat, ms: seq<Match>, replace: Match -> string): string
    requires InOrder(text, cursor, ms)
    decreases |ms|
  {
    if ms == [] then text[cursor..]
    else text[cursor..ms[0].start] + replace(ms[0]) + Spliced(text, ms[0].end, ms[1..], replace)
  }

  lemma SplicedFirst(text: string, cursor: nat, ms: seq<Match>, replace: Match -> string)
    requires InOrder(text, cursor, ms) && ms != []
    ensures cursor <= ms[0].start < ms[0].end <= |text| && InOrder(text, ms[0].end, ms[1..])
    ensures Spliced(text, cursor, ms, replace)
         == text[cursor..ms[0].start] + replace(ms[0]) + Spliced(text, ms[0].end, ms[1..], replace)
  {
  }

  lemma OrderEarlier(text: string, i: nat, ms: seq<Match>)
    requires i < |text| && InOrder(text, i + 1, ms)
    ensures InOrder(text, i, ms)
  {
  }

  lemma SplicedEarlier(text: string, i: nat, ms: seq<Match>, replace: Match -> string)
    requires i < |text| && InOrder(text, i + 1, ms)
    ensures InOrder(text, i, ms)
    ensures Spliced(text, i, ms, replace) == [text[i]] + Spliced(text, i + 1, ms, replace)
  {
    OrderEarlier(text, i, ms);
    if ms == [] {
      assert text[i..] == [text[i]] + text[i + 1..];
    } else {
      hide Spliced, InOrder;
      SplicedFirst(text, i, ms, replace);
      SplicedFirst(text, i + 1, ms, replace);
      var start, later := ms[0].start, Spliced(text, ms[0].end, ms[1..], replace);
      ConsSlice(text, i, start - i);
      ConsJoin(text[i], text[i + 1..start], replace(ms[0]), later);
    }
  }

  lemma ConsJoin(c: char, x: string, y: string, z: string)
    ensures ([c] + x) + y + z == [c] + (x + y + z)
  {
  }

  /** A number is among the listed ones, or begins inside one of them. */
  ghost predicate Handled(ms: seq<Match>, m: Match) {
    m in ms || exists k :: k in ms && k.start < m.start < k.end
  }

  /** The rewriting replaces some matches and keeps the rest of the text; a match it skips overlaps one before it. */
  lemma {:induction false} RewriteIsSplice(text: string, i: nat, replace: Match -> string) returns (ms: seq<Match>)
    requires i <= |text|
    ensures InOrder(text, i, ms) && Rewrite(text, i, replace) == Spliced(text, i, ms, replace)
    ensures forall m :: m in ms ==> IsMatch(text, m)
    ensures forall m :: IsMatch(text, m) && m.start >= i ==> Handled(ms, m)
    decreases |text| - i
  {
    hide LikeAt, MatchAt;
    if LikeAt(text, i) {
      var first := MatchAt(text, i);
      var later := RewriteIsSplice(text, first.end, replace);
      ms := [first] + later;
      assert ms[1..] == later && text[i..i] == "";
      forall m | IsMatch(text, m) && m.start >= i
        ensures Handled(ms, m)
      {
        if m.start >= first.end {
          assert Handled(later, m);
        } else {
          assert first in ms;
        }
      }
    } else if i < |text| {
      ms := RewriteIsSplice(text, i + 1, replace);
      SplicedEarlier(text, i, ms, replace);
    } else {
      ms := [];
      NoMatchAtEnd(text);
    }
  }

  lemma NoMatchAtEnd(text: string)
    ensures forall m: Match :: m.start >= |text| ==> !IsMatch(text, m)
  {
  }

  /**
   * Redaction puts the redaction text in place of Aadhaar-like numbers and keeps every other character; a number
   * it does not replace begins inside one that it does.
   */
  lemma RedactionReplacesOnly(text: string) returns (ms: seq<Match>)
    ensures InOrder(text, 0, ms) && Redacted(text) == Spliced(text, 0, ms, m => "[Aadhaar-like number removed]")
    ensures forall m :: m in ms ==> AadhaarLike(text, m)
    ensures forall m :: AadhaarLike(text, m) ==> Handled(ms, m)
  {
    hide IsMatch, AadhaarLike;
    ms := RewriteIsSplice(text, 0, Removed);
    SplicedAlike(text, 0, ms, Removed, m => "[Aadhaar-like number removed]");
    forall m
      ensures IsMatch(text, m) <==> AadhaarLike(text, m)
    {
      MatchIsAadhaarLike(text, m);
    }
  }

  lemma {:induction false} SplicedAlike(text: string, cursor: nat, ms: seq<Match>, f: Match -> string, g: Match -> string)
    requires InOrder(text, cursor, ms) && forall m :: f(m) == g(m)
    ensures Spliced(text, cursor, ms, f) == Spliced(text, cursor, ms, g)
    decreases |ms|
  {
    if ms != [] {
      SplicedAlike(text, ms[0].end, ms[1..], f, g);
    }
  }
}
