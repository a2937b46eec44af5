/** Decimal numerals as strings: BigInt parsing and printing, and powers of ten. */
module Numerals {

  predicate IsDigit(c: char) {
    '0' <= c <= '9'
  }

  predicate AllDigits(s: string) {
    forall i :: 0 <= i < |s| ==> IsDigit(s[i])
  }

  function DigitValue(c: char): (v: nat)
    requires IsDigit(c)
    ensures v < 10
  {
    c as int - '0' as int
  }

  function DigitChar(v: nat): (c: char)
    requires v < 10
    ensures IsDigit(c) && DigitValue(c) == v
  {
    ('0' as int + v) as char
  }

  function Pow10(n: nat): (p: nat)
    ensures 1 <= p
  {
    if n == 0 then 1 else 10 * Pow10(n - 1)
  }

  /** `BigInt(s)` of a run of digits; the empty run reads as 0. */
  function ParseNat(s: string): nat
    requires AllDigits(s)
  {
    if s == "" then 0 else 10 * ParseNat(s[..|s| - 1]) + DigitValue(s[|s| - 1])
  }

  /** `n.toString()` of a non-negative BigInt. */
  function ShowNat(n: nat): (s: string)
    ensures s != "" && AllDigits(s)
  {
    if n < 10 then [DigitChar(n)] else ShowNat(n / 10) + [DigitChar(n % 10)]
  }

  function Zeros(n: nat): (s: string)
    ensures |s| == n && AllDigits(s)
  {
    seq(n, _ => '0')
  }

  /** `s.padStart(width, '0')`. */
  function PadZeros(s: string, width: nat): (r: string)
    ensures AllDigits(s) ==> AllDigits(r)
    ensures |s| <= width ==> |r| == width
  {
    if |s| < width then Zeros(width - |s|) + s else s
  }

  /** `s.replace(/0+$/, '')`. */
  function TrimZeros(s: string): (r: string)
    ensures r <= s
    ensures r != "" ==> r[|r| - 1] != '0'
    ensures AllDigits(s) ==> AllDigits(r)
  {
    if s != "" && s[|s| - 1] == '0' then TrimZeros(s[..|s| - 1]) else s
  }

  lemma {:induction false} ParseShow(n: nat)
    ensures ParseNat(ShowNat(n)) == n
    ensures ShowNat(n)[0] == '0' ==> n == 0
  {
    if n < 10 {
      assert ShowNat(n)[..0] == "";
    } else {
      ParseShow(n / 10);
      var s := ShowNat(n);
      assert s[..|s| - 1] == ShowNat(n / 10);
    }
  }

  lemma {:induction false} ParseConcat(a: string, b: string)
    requires AllDigits(a) && AllDigits(b)
    ensures AllDigits(a + b)
    ensures ParseNat(a + b) == ParseNat(a) * Pow10(|b|) + ParseNat(b)
  {
    if b == "" {
      assert a + b == a;
    } else {
      var s, front := a + b, b[..|b| - 1];
      assert s[..|s| - 1] == a + front;
      ParseConcat(a, front);
      assert ParseNat(s) == 10 * ParseNat(a + front) + DigitValue(b[|b| - 1]);
      TimesTen(ParseNat(a), Pow10(|front|));
    }
  }

  lemma TimesTen(a: int, p: int)
    ensures a * (10 * p) == 10 * (a * p)
  {
  }

  lemma {:induction false} ParseZeros(n: nat)
    ensures ParseNat(Zeros(n)) == 0
  {
    if n > 0 {
      assert Zeros(n)[..n - 1] == Zeros(n - 1);
      ParseZeros(n - 1);
    }
  }

  lemma ParsePadded(s: string, width: nat)
    requires AllDigits(s)
    ensures ParseNat(PadZeros(s, width)) == ParseNat(s)
  {
    if |s| < width {
      var pad := Zeros(width - |s|);
      ParseZeros(width - |s|);
      ParseConcat(pad, s);
      assert ParseNat(pad + s) == 0 * Pow10(|s|) + ParseNat(s);
    }
  }

  lemma {:induction false} ParseBound(s: string)
    requires AllDigits(s)
    ensures ParseNat(s) < Pow10(|s|)
  {
    if s != "" {
      ParseBound(s[..|s| - 1]);
    }
  }

  /** A numeral with no leading zero is what its value prints as. */
  lemma {:induction false} ShowParse(s: string)
    requires s != "" && AllDigits(s) && (s[0] == '0' ==> s == "0")
    ensures ShowNat(ParseNat(s)) == s
  {
    var front := s[..|s| - 1];
    if front == "" {
      assert s == [s[0]];
    } else {
      assert front[0] == s[0];
      ShowParse(front);
      ParsePositive(front);
      LastDigit(ParseNat(front), DigitValue(s[|s| - 1]));
      assert s == front + [s[|s| - 1]];
    }
  }

  lemma LastDigit(front: nat, digit: nat)
    requires digit < 10
    ensures (10 * front + digit) / 10 == front && (10 * front + digit) % 10 == digit
  {
  }

  lemma {:induction false} ParsePositive(s: string)
    requires s != "" && AllDigits(s) && s[0] != '0'
    ensures ParseNat(s) > 0
  {
    if |s| > 1 {
      ParsePositive(s[..|s| - 1]);
    }
  }

  lemma ParseLast(s: string)
    requires s != "" && AllDigits(s)
    ensures ParseNat(s) == 10 * ParseNat(s[..|s| - 1]) + DigitValue(s[|s| - 1])
  {
  }

  lemma SameDigits(x: nat, c: char, y: nat, d: char)
    requires IsDigit(c) && IsDigit(d)
    requires 10 * x + DigitValue(c) == 10 * y + DigitValue(d)
    ensures x == y && c == d
  {
  }

  /** Numerals of one width are equal when their values are. */
  lemma {:induction false} ParseInjective(a: string, b: string)
    requires AllDigits(a) && AllDigits(b) && |a| == |b|
    requires ParseNat(a) == ParseNat(b)
    ensures a == b
  {
    if a != "" {
      hide ParseNat, DigitValue;
      var n := |a| - 1;
      ParseLast(a);
      ParseLast(b);
      SameDigits(ParseNat(a[..n]), a[n], ParseNat(b[..n]), b[n]);
      ParseInjective(a[..n], b[..n]);
      assert a == a[..n] + [a[n]] && b == b[..n] + [b[n]];
    }
  }

  lemma {:induction false} Pow10Add(a: nat, b: nat)
    ensures Pow10(a + b) == Pow10(a) * Pow10(b)
  {
    if b > 0 {
      Pow10Add(a, b - 1);
      assert Pow10(a + b) == 10 * Pow10(a + (b - 1));
      assert Pow10(a) * Pow10(b) == 10 * (Pow10(a) * Pow10(b - 1));
    }
  }

  lemma {:induction false} TrimZerosSplit(s: string)
    ensures s == TrimZeros(s) + Zeros(|s| - |TrimZeros(s)|)
  {
    if s != "" && s[|s| - 1] == '0' {
      TrimZerosSplit(s[..|s| - 1]);
    }
  }

  lemma {:induction false} TrimZerosOfAppended(s: string, n: nat)
    ensures TrimZeros(s + Zeros(n)) == TrimZeros(s)
  {
    var t := s + Zeros(n);
    if n > 0 {
      assert t[..|t| - 1] == s + Zeros(n - 1);
      TrimZerosOfAppended(s, n - 1);
    } else {
      assert t == s;
    }
  }

  lemma {:induction false} ShowFits(v: nat, width: nat)
    requires 1 <= width && v < Pow10(width)
    ensures |ShowNat(v)| <= width
  {
    if v >= 10 {
      assert width > 1;
      ShowFits(v / 10, width - 1);
    }
  }

  lemma ShowWidth(n: nat)
    requires n < 10_000
    ensures |ShowNat(n)| <= 4
  {
    assert Pow10(2) == 100 && Pow10(4) == 10_000;
    ShowFits(n, 4);
  }
}
