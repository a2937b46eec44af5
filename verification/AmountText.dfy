/**
 Reading and printing invoice amounts as integers of 1/10000 (`units` and `text` of
 `src/invoices/line-amounts.ts`). A JavaScript number is represented by its `String(value)` text,
 the only view of it the code ever takes (Number::toString, section 6.1.6.1.20 of ECMA-262).
 */
module AmountText {
  import opened Numerals
  import opened Rounding
  import opened Wrappers

  const SCALE := 10_000

  /** RangeError for amounts of 1e21 and more, SyntaxError for NaN and the infinities. */
  datatype AmountError = OutOfRange | NotANumeral

  // ---- the code ----

  function IndexOf(s: string, c: char): (i: nat)
    ensures i <= |s|
    ensures i < |s| ==> s[i] == c
    ensures forall j :: 0 <= j < i ==> s[j] != c
    ensures c !in s ==> i == |s|
  {
    if s == "" || s[0] == c then 0 else 1 + IndexOf(s[1..], c)
  }

  /** `s.replace(c, r)` with a string pattern: the first occurrence only. */
  function ReplaceFirst(s: string, c: char, r: string): string {
    var i := IndexOf(s, c);
    if i == |s| then s else s[..i] + r + s[i + 1..]
  }

  /** `const [int, frac = ''] = s.split('.')`. */
  function SplitPoint(s: string): (string, string) {
    var i := IndexOf(s, '.');
    if i == |s| then (s, "")
    else
      var rest := s[i + 1..];
      (s[..i], rest[..IndexOf(rest, '.')])
  }

  /** `Math.abs(value) < 1` of a number whose text is in exponent form. */
  predicate NegativeExponent(text: string) {
    var i := IndexOf(text, 'e');
    i + 1 < |text| && text[i + 1] == '-'
  }

  function Units(text: string): Result<int, AmountError> {
    if 'e' in text then
      if NegativeExponent(text) then Success(0) else Failure(OutOfRange)
    else
      var negative := text != "" && text[0] == '-';
      var (whole, frac) := SplitPoint(ReplaceFirst(text, '-', ""));
      if !AllDigits(whole + frac) then Failure(NotANumeral)
      else
        var scaled := DivRound(ParseNat(whole + frac) * SCALE, Pow10(|frac|));
        Success(if negative then -scaled else scaled)
  }

  function Text(u: int): string {
    PlainText(u < 0, WholeDigits(u), FractionDigits(u))
  }

  function WholeDigits(u: int): string {
    ShowNat(Abs(u) / SCALE)
  }

  function FractionDigits(u: int): string {
    TrimZeros(PadZeros(ShowNat(Abs(u) % SCALE), 4))
  }

  // ---- the texts a number prints as ----

  /** `-12.5` and the like: sign, whole digits, and a fraction unless it is empty. */
  function PlainText(negative: bool, whole: string, frac: string): string {
    (if negative then "-" else "") + whole + (if frac == "" then "" else "." + frac)
  }

  /** `d.ddde-7`, `de+21`: the exponent form, with the sign of the exponent spelt out. */
  function ExponentText(negative: bool, lead: string, frac: string, down: bool, exponent: string): string {
    PlainText(negative, lead, frac) + "e" + (if down then "-" else "+") + exponent
  }

  function Signed(negative: bool, n: int): int {
    if negative then -n else n
  }

  /** No leading zero, no trailing fraction zero, no bare point, no minus zero, at most 4 decimals. */
  ghost predicate IsCanonical(negative: bool, whole: string, frac: string) {
    && whole != "" && AllDigits(whole) && (whole[0] == '0' ==> whole == "0")
    && |frac| <= 4 && AllDigits(frac) && (frac != "" ==> frac[|frac| - 1] != '0')
    && (negative ==> whole != "0" || frac != "")
  }

  ghost predicate IsCanonicalText(text: string) {
    exists negative, whole, frac :: IsCanonical(negative, whole, frac) && text == PlainText(negative, whole, frac)
  }

  // ---- parsing ----

  lemma DigitsExclude(s: string)
    requires AllDigits(s)
    ensures '-' !in s && '.' !in s && 'e' !in s
  {
  }

  lemma IndexOfAt(a: string, c: char, b: string)
    requires c !in a
    ensures IndexOf(a + [c] + b, c) == |a|
  {
    var s := a + [c] + b;
    assert s[|a|] == c;
    assert forall j :: 0 <= j < |a| ==> s[j] == a[j];
  }

  lemma ReplaceFirstAt(a: string, c: char, b: string, r: string)
    requires c !in a
    ensures ReplaceFirst(a + [c] + b, c, r) == a + r + b
  {
    hide IndexOf;
    IndexOfAt(a, c, b);
    var s := a + [c] + b;
    assert s[..|a|] == a && s[|a| + 1..] == b;
  }

  lemma SignRemoved(negative: bool, body: string)
    requires '-' !in body
    ensures ReplaceFirst((if negative then "-" else "") + body, '-', "") == body
  {
    if negative {
      ReplaceFirstAt("", '-', body, "");
      assert "" + ['-'] + body == "-" + body;
    } else {
      assert "" + body == body;
    }
  }

  lemma PointSplits(whole: string, frac: string)
    requires '.' !in whole && '.' !in frac
    ensures SplitPoint(whole + (if frac == "" then "" else "." + frac)) == (whole, frac)
  {
    if frac == "" {
      assert whole + "" == whole;
    } else {
      var s := whole + ['.'] + frac;
      assert s == whole + ("." + frac);
      IndexOfAt(whole, '.', frac);
      assert s[..|whole|] == whole && s[|whole| + 1..] == frac;
      assert frac[..|frac|] == frac;
    }
  }

  lemma PlainTextParts(negative: bool, whole: string, frac: string)
    requires whole != "" && AllDigits(whole) && AllDigits(frac)
    ensures var t := PlainText(negative, whole, frac);
      && 'e' !in t && t != "" && (t[0] == '-' <==> negative)
      && SplitPoint(ReplaceFirst(t, '-', "")) == (whole, frac)
  {
    var body := whole + (if frac == "" then "" else "." + frac);
    DigitsExclude(whole);
    DigitsExclude(frac);
    var sign := if negative then "-" else "";
    var t := PlainText(negative, whole, frac);
    assert t == sign + body;
    assert 'e' !in body && '-' !in body;
    assert 'e' !in sign;
    assert t[0] == (if negative then '-' else whole[0]) && IsDigit(whole[0]);
    SignRemoved(negative, body);
    PointSplits(whole, frac);
  }

  lemma UnitsOfParts(text: string, whole: string, frac: string)
    requires 'e' !in text && text != "" && AllDigits(whole + frac)
    requires SplitPoint(ReplaceFirst(text, '-', "")) == (whole, frac)
    ensures Units(text) == Success(Signed(text[0] == '-', DivRound(ParseNat(whole + frac) * SCALE, Pow10(|frac|))))
  {
    hide DivRound, SplitPoint, ReplaceFirst, ParseNat, Pow10;
  }

  lemma UnitsOfDigits(negative: bool, whole: string, frac: string)
    requires whole != "" && AllDigits(whole) && AllDigits(frac)
    ensures Units(PlainText(negative, whole, frac))
         == Success(Signed(negative, DivRound(ParseNat(whole + frac) * SCALE, Pow10(|frac|))))
  {
    var t := PlainText(negative, whole, frac);
    PlainTextParts(negative, whole, frac);
    UnitsOfParts(t, whole, frac);
  }

  /** Every plain decimal parses to the nearest 1/10000 of its exact value, ties away from zero. */
  lemma UnitsOfPlain(negative: bool, whole: string, frac: string)
    requires whole != "" && AllDigits(whole) && AllDigits(frac)
    ensures var u := Units(PlainText(negative, whole, frac));
      && u.Success?
      && IsNearest(Signed(negative, ParseNat(whole + frac) * SCALE), Pow10(|frac|), u.value)
  {
    UnitsOfDigits(negative, whole, frac);
    SignedNearest(negative, ParseNat(whole + frac) * SCALE, Pow10(|frac|));
  }

  lemma SignedNearest(negative: bool, n: int, d: int)
    requires d > 0
    ensures IsNearest(Signed(negative, n), d, Signed(negative, DivRound(n, d)))
  {
    DivRoundOdd(n, d);
    DivRoundIsNearest(n, d);
    DivRoundIsNearest(-n, d);
  }

  lemma UnitsIgnoresTrailingZeros(negative: bool, whole: string, frac: string, zeros: nat)
    requires whole != "" && AllDigits(whole) && AllDigits(frac)
    ensures Units(PlainText(negative, whole, frac + Zeros(zeros))) == Units(PlainText(negative, whole, frac))
  {
    hide Units, DivRound, PlainText;
    UnitsOfDigits(negative, whole, frac);
    UnitsOfDigits(negative, whole, frac + Zeros(zeros));
    assert whole + (frac + Zeros(zeros)) == whole + frac + Zeros(zeros);
    RoundedZeros(whole + frac, |frac|, zeros);
  }

  lemma RoundedZeros(digits: string, scale: nat, zeros: nat)
    requires AllDigits(digits)
    ensures AllDigits(digits + Zeros(zeros))
    ensures DivRound(ParseNat(digits + Zeros(zeros)) * SCALE, Pow10(scale + zeros))
         == DivRound(ParseNat(digits) * SCALE, Pow10(scale))
  {
    ParseAppendedZeros(digits, zeros);
    Pow10Add(scale, zeros);
    MulCommute(ParseNat(digits), Pow10(zeros));
    DivRoundScale(ParseNat(digits) * SCALE, Pow10(scale), Pow10(zeros));
  }

  lemma ParseAppendedZeros(digits: string, zeros: nat)
    requires AllDigits(digits)
    ensures AllDigits(digits + Zeros(zeros))
    ensures ParseNat(digits + Zeros(zeros)) == ParseNat(digits) * Pow10(zeros)
  {
    ParseConcat(digits, Zeros(zeros));
    ParseZeros(zeros);
  }

  lemma MulCommute(a: int, b: int)
    ensures a * b * SCALE == (a * SCALE) * b
  {
  }

  /**
   Exponent texts: a down exponent (7 or more, ECMA-262) is the exact rounding to 0; an up
   exponent (21 or more) is refused. `m` is the coefficient's digits, so the exact value is
   m / 10^(|frac| + x) or m * 10^x / 10^|frac|.
   */
  lemma UnitsOfExponent(negative: bool, lead: string, frac: string, down: bool, exponent: string)
    requires |lead| == 1 && AllDigits(lead) && lead != "0" && AllDigits(frac) && AllDigits(exponent)
    requires ParseNat(exponent) >= if down then 7 else 21
    ensures var u := Units(ExponentText(negative, lead, frac, down, exponent));
      var m, x := ParseNat(lead + frac), ParseNat(exponent);
      && (down ==> u == Success(0) && IsNearest(Signed(negative, m) * SCALE, Pow10(|frac| + x), 0))
      && (!down ==> u == Failure(OutOfRange) && m * Pow10(x) >= Pow10(21) * Pow10(|frac|))
  {
    hide Units, ExponentText, Pow10, IsNearest, ParseNat;
    UnitsBySign(negative, lead, frac, down, exponent);
    LeadingDigit(lead, frac);
    if down {
      RoundsToZero(ParseNat(lead + frac), |frac|, ParseNat(exponent));
    } else {
      AtLeast1e21(ParseNat(lead + frac), |frac|, ParseNat(exponent));
    }
  }

  lemma UnitsBySign(negative: bool, lead: string, frac: string, down: bool, exponent: string)
    requires lead != "" && AllDigits(lead) && AllDigits(frac) && AllDigits(exponent)
    ensures Units(ExponentText(negative, lead, frac, down, exponent))
         == if down then Success(0) else Failure(OutOfRange)
  {
    hide PlainText, ParseNat, DivRound, SplitPoint, ReplaceFirst;
    var front, sign := PlainText(negative, lead, frac), if down then "-" else "+";
    var t := ExponentText(negative, lead, frac, down, exponent);
    PlainTextParts(negative, lead, frac);
    IndexOfAt(front, 'e', sign + exponent);
    assert t == front + ['e'] + (sign + exponent);
    assert t[|front|] == 'e' && t[|front| + 1] == sign[0];
  }

  lemma LeadingDigit(lead: string, frac: string)
    requires |lead| == 1 && AllDigits(lead) && lead != "0" && AllDigits(frac)
    ensures AllDigits(lead + frac) && Pow10(|frac|) <= ParseNat(lead + frac) < 10 * Pow10(|frac|)
  {
    ParseBound(lead + frac);
    ParseConcat(lead, frac);
    assert lead[..0] == "";
    assert lead == [lead[0]];
    assert ParseNat(lead) == DigitValue(lead[0]) >= 1;
    MulMonotone(1, ParseNat(lead), Pow10(|frac|));
  }

  lemma Pow10Seven()
    ensures Pow10(7) == 10_000_000
  {
    assert Pow10(3) == 1000;
    assert Pow10(5) == 100_000;
  }

  lemma RoundsToZero(m: int, scale: nat, x: nat)
    requires 0 <= m < 10 * Pow10(scale) && x >= 7
    ensures IsNearest(m * SCALE, Pow10(scale + x), 0)
    ensures IsNearest((-m) * SCALE, Pow10(scale + x), 0)
  {
    hide Pow10;
    Pow10Seven();
    Pow10Add(7, x - 7);
    Pow10Add(scale, x);
    var f, r := Pow10(scale), Pow10(x - 7);
    MulMonotone(1, r, f);
    assert f * (10_000_000 * r) == 10_000_000 * (r * f);
  }

  lemma AtLeast1e21(m: nat, scale: nat, x: nat)
    requires m >= Pow10(scale) && x >= 21
    ensures m * Pow10(x) >= Pow10(21) * Pow10(scale)
  {
    hide Pow10;
    Pow10Monotone(21, x);
    var least, f, p := Pow10(21), Pow10(scale), Pow10(x);
    MulMonotone(least, p, f);
    MulMonotone(f, m, p);
    assert p * f == f * p;
  }

  lemma Pow10Monotone(a: nat, b: nat)
    requires a <= b
    ensures Pow10(a) <= Pow10(b)
  {
    hide Pow10;
    Pow10Add(a, b - a);
    MulMonotone(1, Pow10(b - a), Pow10(a));
  }

  // ---- printing ----

  lemma Pow10Four()
    ensures Pow10(0) == 1 && Pow10(1) == 10 && Pow10(2) == 100 && Pow10(3) == 1000 && Pow10(4) == 10_000
  {
    assert Pow10(2) == 100;
  }

  lemma FractionValue(u: int)
    ensures var frac := FractionDigits(u);
      && |frac| <= 4 && AllDigits(frac)
      && ParseNat(frac) * Pow10(4 - |frac|) == Abs(u) % SCALE
  {
    var rest := Abs(u) % SCALE;
    var padded, frac := PadZeros(ShowNat(rest), 4), FractionDigits(u);
    ShowWidth(rest);
    ParseShow(rest);
    ParsePadded(ShowNat(rest), 4);
    TrimZerosSplit(padded);
    ParseAppendedZeros(frac, 4 - |frac|);
  }

  /** The digits of a numeral with k <= 4 decimals, in units. */
  lemma DigitsInUnits(whole: string, frac: string)
    requires AllDigits(whole) && AllDigits(frac) && |frac| <= 4
    ensures AllDigits(whole + frac)
    ensures ParseNat(whole + frac) * SCALE
         == (ParseNat(whole) * SCALE + ParseNat(frac) * Pow10(4 - |frac|)) * Pow10(|frac|)
  {
    hide Pow10, ParseNat;
    ParseConcat(whole, frac);
    Pow10Four();
    if
    case |frac| == 0 => {}
    case |frac| == 1 => {}
    case |frac| == 2 => {}
    case |frac| == 3 => {}
    case |frac| == 4 => {}
  }

  lemma UnitsOfDecimals(negative: bool, whole: string, frac: string)
    requires whole != "" && AllDigits(whole) && AllDigits(frac) && |frac| <= 4
    ensures Units(PlainText(negative, whole, frac))
         == Success(Signed(negative, ParseNat(whole) * SCALE + ParseNat(frac) * Pow10(4 - |frac|)))
  {
    hide Units, PlainText, DivRound, Pow10, ParseNat;
    UnitsOfDigits(negative, whole, frac);
    DigitsInUnits(whole, frac);
    DivRoundWhole(ParseNat(whole) * SCALE + ParseNat(frac) * Pow10(4 - |frac|), Pow10(|frac|));
  }

  /** Reading back a printed amount gives the amount. */
  lemma UnitsOfText(u: int)
    ensures Units(Text(u)) == Success(u)
  {
    hide Units, PlainText, WholeDigits, FractionDigits;
    WholeValue(u);
    FractionValue(u);
    UnitsOfDecimals(u < 0, WholeDigits(u), FractionDigits(u));
  }

  lemma WholeValue(u: int)
    ensures var whole := WholeDigits(u);
      whole != "" && AllDigits(whole) && ParseNat(whole) == Abs(u) / SCALE
  {
    ParseShow(Abs(u) / SCALE);
  }

  lemma TextInjective(u: int, v: int)
    requires Text(u) == Text(v)
    ensures u == v
  {
    hide Units, Text;
    UnitsOfText(u);
    UnitsOfText(v);
  }

  /** What is printed has no leading or trailing zero, no bare point and no minus zero. */
  lemma TextIsCanonical(u: int)
    ensures IsCanonical(u < 0, WholeDigits(u), FractionDigits(u))
  {
    hide Pow10;
    var abs := Abs(u);
    ParseShow(abs / SCALE);
    FractionValue(u);
    if u < 0 && FractionDigits(u) == "" {
      assert abs % SCALE == 0;
      assert abs / SCALE > 0;
    }
  }

  /** Every canonical text is printed by the amount it reads as: `text` inverts `units` on them. */
  lemma TextOfUnits(negative: bool, whole: string, frac: string)
    requires IsCanonical(negative, whole, frac)
    ensures var u := Units(PlainText(negative, whole, frac));
      u.Success? && Text(u.value) == PlainText(negative, whole, frac)
  {
    hide Units, PlainText, ShowNat, PadZeros, ParseNat, Pow10;
    var k, w := 4 - |frac|, ParseNat(whole);
    var padded := frac + Zeros(k);
    ParseAppendedZeros(frac, k);
    ParseBound(padded);
    Pow10Four();
    var abs := w * SCALE + ParseNat(padded);
    var u := Signed(negative, abs);
    UnitsOfDecimals(negative, whole, frac);
    CanonicalSign(negative, whole, frac);
    assert abs / SCALE == w && abs % SCALE == ParseNat(padded);
    assert Abs(u) == abs && (u < 0 <==> negative);
    ShowParse(whole);
    PaddedDigits(padded);
    TrimZerosOfAppended(frac, k);
    assert FractionDigits(u) == TrimZeros(frac) == frac;
  }

  /** An amount has one canonical text: the one it prints as. */
  lemma CanonicalTextIsPrinted(text: string, u: int)
    ensures IsCanonicalText(text) && Units(text) == Success(u) <==> text == Text(u)
  {
    hide Units, PlainText, IsCanonical, WholeDigits, FractionDigits;
    if IsCanonicalText(text) && Units(text) == Success(u) {
      var negative, whole, frac :| IsCanonical(negative, whole, frac) && text == PlainText(negative, whole, frac);
      TextOfUnits(negative, whole, frac);
    }
    if text == Text(u) {
      TextIsCanonical(u);
      UnitsOfText(u);
    }
  }

  lemma PaddedDigits(padded: string)
    requires AllDigits(padded) && |padded| == 4
    ensures PadZeros(ShowNat(ParseNat(padded)), 4) == padded
  {
    var n := ParseNat(padded);
    ParseBound(padded);
    Pow10Four();
    ShowWidth(n);
    ParseShow(n);
    ParsePadded(ShowNat(n), 4);
    ParseInjective(PadZeros(ShowNat(n), 4), padded);
  }

  lemma CanonicalSign(negative: bool, whole: string, frac: string)
    requires IsCanonical(negative, whole, frac)
    ensures negative ==> ParseNat(whole) > 0 || ParseNat(frac) > 0
  {
    if negative && whole != "0" {
      ParsePositive(whole);
    }
  }

  /** NaN and the infinities are not numerals. */
  lemma NonNumbersRefused()
    ensures Units("NaN") == Units("Infinity") == Units("-Infinity") == Failure(NotANumeral)
  {
    hide Units;
    LettersRefused(false, "NaN");
    LettersRefused(false, "Infinity");
    LettersRefused(true, "Infinity");
    assert "" + "NaN" == "NaN" && "" + "Infinity" == "Infinity" && "-" + "Infinity" == "-Infinity";
  }

  lemma LettersRefused(negative: bool, body: string)
    requires body != "" && !IsDigit(body[0]) && '-' !in body && '.' !in body && 'e' !in body
    ensures Units((if negative then "-" else "") + body) == Failure(NotANumeral)
  {
    hide ReplaceFirst, SplitPoint, DivRound, ParseNat, Pow10;
    SignRemoved(negative, body);
    PointSplits(body, "");
    assert body + "" == body;
    assert !AllDigits(body + "");
    var t := (if negative then "-" else "") + body;
    assert 'e' !in t;
  }
}
