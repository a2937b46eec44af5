/**
 Invoice lines and billable hours (`lineAmounts` and `hoursOf` of
 `src/invoices/line-amounts.ts`), on top of AmountText.
 */
module LineAmounts {
  import opened Numerals
  import opened Rounding
  import opened AmountText
  import opened Wrappers

  datatype Line = Line(quantity: string, unitPrice: string, total: string)

  function LineAmounts(quantity: string, unitPrice: string): Result<Line, AmountError> {
    var q :- Units(quantity);
    var p :- Units(unitPrice);
    Success(Line(Text(q), Text(p), Text(DivRound(q * p, SCALE))))
  }

  function HoursOf(seconds: string): Result<string, AmountError> {
    var s :- Units(seconds);
    Success(Text(DivRound(s, 3600)))
  }

  /**
   The hours of any duration an int4 column can hold print with at most 10 digits, which `Number`
   carries exactly (it does so up to 15).
   */
  lemma StoredHoursFitNumber(s: int)
    requires -0x8000_0000 <= s < 0x8000_0000
    ensures var h := DivRound(s * SCALE, 3600);
      HoursOf(Text(s * SCALE)) == Success(Text(h)) && |WholeDigits(h)| + |FractionDigits(h)| <= 10
  {
    hide Units, Text, DivRound;
    var h := DivRound(s * SCALE, 3600);
    UnitsOfText(s * SCALE);
    DivRoundIsNearest(s * SCALE, 3600);
    FractionValue(h);
    assert Pow10(3) == 1000 && Pow10(6) == 1_000_000;
    ShowFits(Abs(h) / SCALE, 6);
  }

  /**
   A line shows its inputs rounded to 4 decimals, and the nearest 4-decimal product of what it
   shows; all three as canonical texts, so there is no other line like it.
   */
  lemma LineShowsItsProduct(quantity: string, unitPrice: string)
    ensures var line := LineAmounts(quantity, unitPrice);
      && (line.Success? <==> Units(quantity).Success? && Units(unitPrice).Success?)
      && (line.Success? ==>
        && IsCanonicalText(line.value.quantity) && IsCanonicalText(line.value.unitPrice)
        && IsCanonicalText(line.value.total)
        && Units(line.value.quantity) == Units(quantity)
        && Units(line.value.unitPrice) == Units(unitPrice)
        && Units(line.value.total).Success?
        && IsNearest(Units(line.value.quantity).value * Units(line.value.unitPrice).value, SCALE,
                     Units(line.value.total).value))
  {
    hide Units, Text, DivRound, IsNearest, IsCanonicalText;
    if Units(quantity).Success? && Units(unitPrice).Success? {
      var q, p := Units(quantity).value, Units(unitPrice).value;
      CanonicalTextIsPrinted(Text(q), q);
      CanonicalTextIsPrinted(Text(p), p);
      CanonicalTextIsPrinted(Text(DivRound(q * p, SCALE)), DivRound(q * p, SCALE));
      DivRoundIsNearest(q * p, SCALE);
    }
  }

  /** Recomputing a line from what it stores changes none of its three texts. */
  lemma StoredLineIsFixed(quantity: string, unitPrice: string)
    ensures var line := LineAmounts(quantity, unitPrice);
      line.Success? ==> LineAmounts(line.value.quantity, line.value.unitPrice) == line
  {
    hide Units, Text, DivRound;
    if LineAmounts(quantity, unitPrice).Success? {
      UnitsOfText(Units(quantity).value);
      UnitsOfText(Units(unitPrice).value);
    }
  }

  /** Hours are the canonical text of the nearest 1/10000 hour, and fail only if the seconds do. */
  lemma HoursAreNearest(seconds: string)
    ensures var hours := HoursOf(seconds);
      && (hours.Success? <==> Units(seconds).Success?)
      && (hours.Success? ==>
        && IsCanonicalText(hours.value) && Units(hours.value).Success?
        && IsNearest(Units(seconds).value, 3600, Units(hours.value).value))
  {
    hide Units, Text, DivRound, IsNearest, IsCanonicalText;
    if Units(seconds).Success? {
      var s := Units(seconds).value;
      CanonicalTextIsPrinted(Text(DivRound(s, 3600)), DivRound(s, 3600));
      DivRoundIsNearest(s, 3600);
    }
  }

  /** The total of a line with stored quantity q and price p, in units. */
  ghost function TotalOf(q: int, p: int): (total: int)
    ensures LineAmounts(Text(q), Text(p)) == Success(Line(Text(q), Text(p), Text(total)))
    ensures Units(Text(total)) == Success(total)
    ensures IsNearest(q * p, SCALE, total)
  {
    hide Units, Text, DivRound, IsNearest;
    UnitsOfText(q);
    UnitsOfText(p);
    UnitsOfText(DivRound(q * p, SCALE));
    DivRoundIsNearest(q * p, SCALE);
    DivRound(q * p, SCALE)
  }

  /** A credit line mirrors its charge. */
  lemma CreditMirrorsCharge(q: int, p: int)
    ensures TotalOf(-q, p) == -TotalOf(q, p)
    ensures TotalOf(q, -p) == -TotalOf(q, p)
  {
    hide Units, Text, DivRound, IsNearest;
    DivRoundOdd(q * p, SCALE);
    assert (-q) * p == -(q * p) && q * (-p) == -(q * p);
  }

  lemma TotalMonotone(q: int, q': int, p: int)
    requires q <= q' && p >= 0
    ensures TotalOf(q, p) <= TotalOf(q', p)
  {
    hide Text, DivRound;
    if p > 0 {
      MulMonotone(q, q', p);
    }
    DivRoundMonotone(q * p, q' * p, SCALE);
  }

  /**
   The total billed for `s` units of seconds at price `p`, through rounded hours, is within
   |p|/20000 + 1/2 units of the exact s*p/3600 (both sides scaled by 36 000 000 here).
   */
  lemma BillingError(seconds: string, unitPrice: string)
    requires Units(seconds).Success? && Units(unitPrice).Success?
    ensures HoursOf(seconds).Success?
    ensures var line := LineAmounts(HoursOf(seconds).value, unitPrice);
      && line.Success? && Units(line.value.total).Success?
      && var s, p, total := Units(seconds).value, Units(unitPrice).value, Units(line.value.total).value;
         Abs(36_000_000 * total - s * p) <= 1800 * Abs(p) + 18_000_000
  {
    hide Units, Text, DivRound;
    var s, p := Units(seconds).value, Units(unitPrice).value;
    var h := DivRound(s, 3600);
    DivRoundIsNearest(s, 3600);
    UnitsOfText(h);
    LineShowsItsProduct(Text(h), unitPrice);
    var total := Units(LineAmounts(Text(h), unitPrice).value.total).value;
    ErrorOfProduct(s, h, p);
    assert 2 * Abs(h * p - total * SCALE) <= SCALE;
  }

  lemma ErrorOfProduct(s: int, h: int, p: int)
    requires 2 * Abs(s - h * 3600) <= 3600
    ensures Abs(3600 * (h * p) - s * p) <= 1800 * Abs(p)
  {
    var e := h * 3600 - s;
    assert e * p == 3600 * (h * p) - s * p;
    if p > 0 {
      MulMonotone(-1800, e, p);
      MulMonotone(e, 1800, p);
    } else if p < 0 {
      MulMonotone(-1800, e, -p);
      MulMonotone(e, 1800, -p);
      assert e * -p == -(e * p);
    }
  }

  function Sum(xs: seq<int>): int {
    if xs == [] then 0 else Sum(xs[..|xs| - 1]) + xs[|xs| - 1]
  }

  /** The hours of n durations, summed, are within n/2 units of the hours of their exact sum. */
  lemma {:induction false} SummedHoursError(durations: seq<string>, units: seq<int>, hours: seq<int>)
    requires |durations| == |units| == |hours|
    requires forall i :: 0 <= i < |units| ==> Units(durations[i]) == Success(units[i])
    requires forall i :: 0 <= i < |units| ==> HoursOf(durations[i]) == Success(Text(hours[i]))
    ensures Abs(3600 * Sum(hours) - Sum(units)) <= 1800 * |units|
  {
    hide Units, Text, DivRound;
    var n := |units|;
    if n > 0 {
      SummedHoursError(durations[..n - 1], units[..n - 1], hours[..n - 1]);
      TextInjective(hours[n - 1], DivRound(units[n - 1], 3600));
      DivRoundIsNearest(units[n - 1], 3600);
    }
  }
}
