/** Integer division rounding half away from zero, as the invoice amounts use it. */
module Rounding {

  function Abs(n: int): nat {
    if n < 0 then -n else n
  }

  /** BigInt `n / d`: truncates toward zero. */
  function TruncDiv(n: int, d: int): int
    requires d > 0
  {
    if n >= 0 then n / d else -(-n / d)
  }

  /** BigInt `n % d`: takes the sign of `n`. */
  function TruncRem(n: int, d: int): int
    requires d > 0
  {
    if n >= 0 then n % d else -(-n % d)
  }

  function DivRound(n: int, d: int): int
    requires d > 0
  {
    var q := TruncDiv(n, d);
    var twiceRest := 2 * TruncRem(n, d);
    if twiceRest >= d then q + 1
    else if twiceRest <= -d then q - 1
    else q
  }

  /** `r` is an integer nearest to n/d, and the one farther from zero on a tie. */
  ghost predicate IsNearest(n: int, d: int, r: int) {
    && 2 * Abs(n - r * d) <= d
    && (2 * Abs(n - r * d) == d ==> Abs(n) < Abs(r * d))
  }

  lemma TruncDivision(n: int, d: int)
    requires d > 0
    ensures n == TruncDiv(n, d) * d + TruncRem(n, d)
    ensures Abs(TruncRem(n, d)) < d
    ensures n >= 0 ==> TruncRem(n, d) >= 0 && TruncDiv(n, d) >= 0
    ensures n <= 0 ==> TruncRem(n, d) <= 0 && TruncDiv(n, d) <= 0
  {
    if n >= 0 {
      NatDivision(n, d);
    } else {
      NatDivision(-n, d);
      var q := -n / d;
      assert (-q) * d == -(q * d);
    }
  }

  lemma NatDivision(m: nat, d: int)
    requires d > 0
    ensures m == (m / d) * d + m % d
    ensures 0 <= m % d < d && 0 <= m / d
  {
  }

  lemma MulMonotone(a: int, b: int, d: int)
    requires d > 0 && a <= b
    ensures a * d <= b * d
    ensures a < b ==> a * d + d <= b * d
  {
    if a < b {
      assert b * d == a * d + d + (b - a - 1) * d;
    }
  }

  lemma DivRoundIsNearest(n: int, d: int)
    requires d > 0
    ensures IsNearest(n, d, DivRound(n, d))
  {
    TruncDivision(n, d);
    var q, r := TruncDiv(n, d), DivRound(n, d);
    if r == q + 1 {
      assert r * d == q * d + d;
    } else if r == q - 1 {
      assert r * d == q * d - d;
    }
  }

  lemma NearestIsUnique(n: int, d: int, r: int, r': int)
    requires d > 0
    requires IsNearest(n, d, r) && IsNearest(n, d, r')
    ensures r == r'
  {
    if r < r' {
      NearestAscending(n, d, r, r');
    } else if r' < r {
      NearestAscending(n, d, r', r);
    }
  }

  lemma NearestAscending(n: int, d: int, r: int, r': int)
    requires d > 0 && r < r'
    ensures !(IsNearest(n, d, r) && IsNearest(n, d, r'))
  {
    // both would be exactly half a step away, and the tie rule would pick two sides at once
    MulMonotone(r, r', d);
    var below, above := r * d, r' * d;
    if r >= 0 {
      MulMonotone(0, r, d);
      assert 0 <= below < above;
    } else if r' <= 0 {
      MulMonotone(r', 0, d);
      assert below < above <= 0;
    } else {
      MulMonotone(r, 0, d);
      MulMonotone(0, r', d);
    }
  }

  /** DivRound is the one rounding that meets its comment. */
  lemma DivRoundExactly(n: int, d: int, r: int)
    requires d > 0
    ensures r == DivRound(n, d) <==> IsNearest(n, d, r)
  {
    DivRoundIsNearest(n, d);
    if IsNearest(n, d, r) {
      NearestIsUnique(n, d, r, DivRound(n, d));
    }
  }

  lemma DivRoundOdd(n: int, d: int)
    requires d > 0
    ensures DivRound(-n, d) == -DivRound(n, d)
  {
    hide DivRound;
    var r := DivRound(n, d);
    DivRoundIsNearest(n, d);
    assert (-r) * d == -(r * d);
    DivRoundExactly(-n, d, -r);
  }

  lemma DivRoundMonotone(m: int, n: int, d: int)
    requires d > 0 && m <= n
    ensures DivRound(m, d) <= DivRound(n, d)
  {
    var a, b := DivRound(m, d), DivRound(n, d);
    DivRoundIsNearest(m, d);
    DivRoundIsNearest(n, d);
    if b < a {
      MulMonotone(b, a, d);
      if m < n {
        assert false;
      }
    }
  }

  /** Scaling both sides (trailing zeros of a decimal) changes nothing. */
  lemma DivRoundScale(n: int, d: int, k: int)
    requires d > 0 && k > 0
    ensures d * k > 0
    ensures DivRound(n * k, d * k) == DivRound(n, d)
  {
    MulMonotone(1, d, k);
    var r := DivRound(n, d);
    hide DivRound;
    DivRoundIsNearest(n, d);
    NearestScale(n, d, r, k);
    DivRoundExactly(n * k, d * k, r);
  }

  lemma NearestScale(n: int, d: int, r: int, k: int)
    requires d > 0 && k > 0 && IsNearest(n, d, r)
    ensures IsNearest(n * k, d * k, r)
  {
    var near := r * d;
    var error := Abs(n - near);
    MulLaws(n, near, error, k);
    MulAssociative(r, d, k);
    AbsMul(n, k);
    AbsMul(near, k);
    AbsMul(n - near, k);
    ScaleComparison(2 * error, d, k);
    ScaleComparison(Abs(n), Abs(near), k);
    var scaledError, scaledNear := error * k, near * k;
    assert Abs(n * k - r * (d * k)) == scaledError;
    assert 2 * scaledError <= d * k;
    assert 2 * scaledError == d * k ==> Abs(n * k) < Abs(scaledNear);
  }

  lemma MulLaws(n: int, m: int, e: int, k: int)
    ensures (n - m) * k == n * k - m * k
    ensures (2 * e) * k == 2 * (e * k)
  {
  }

  lemma MulAssociative(a: int, b: int, c: int)
    ensures a * (b * c) == (a * b) * c
  {
  }

  lemma ScaleComparison(a: int, b: int, k: int)
    requires k > 0
    ensures a < b ==> a * k < b * k
    ensures a == b ==> a * k == b * k
    ensures a > b ==> a * k > b * k
  {
    if a < b {
      MulMonotone(a, b, k);
    } else {
      MulMonotone(b, a, k);
    }
  }

  lemma AbsMul(e: int, k: int)
    requires k > 0
    ensures Abs(e * k) == Abs(e) * k
  {
    if e >= 0 {
      MulMonotone(0, e, k);
    } else {
      MulMonotone(e, 0, k);
      assert (-e) * k == -(e * k);
    }
  }

  /** A whole quotient is not changed by rounding. */
  lemma DivRoundWhole(q: int, d: int)
    requires d > 0
    ensures DivRound(q * d, d) == q
  {
    DivRoundExactly(q * d, d, q);
  }
}
