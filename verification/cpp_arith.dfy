/** Integer division and remainder as C++ defines them for built-in integers,
    and hence for the counts of std::chrono durations: the quotient is
    truncated toward zero and the remainder takes the sign of the dividend.
    Dafny's own `/` and `%` are Euclidean, so the two agree only on
    non-negative dividends.
 */
module CppArith {

  function Abs(x: int): nat {
    if x < 0 then -x else x
  }

  /** `a / b` in C++: the quotient truncated toward zero. */
  function TDiv(a: int, b: int): (q: int)
    requires b > 0
    ensures Abs(q) * b <= Abs(a) < (Abs(q) + 1) * b
    ensures a >= 0 ==> q >= 0
    ensures a <= 0 ==> q <= 0
  {
    if a >= 0 then a / b else -((-a) / b)
  }

  /** `a % b` in C++: the remainder that goes with TDiv. */
  function TMod(a: int, b: int): (m: int)
    requires b > 0
    ensures TDiv(a, b) * b + m == a
    ensures Abs(m) < b
    ensures a >= 0 ==> m >= 0
    ensures a <= 0 ==> m <= 0
  {
    if a >= 0 then a % b else -((-a) % b)
  }

  /** A dividend smaller in magnitude than the divisor carries nothing and stays put. */
  lemma SmallDividend(a: int, b: int)
    requires b > 0 && Abs(a) < b
    ensures TDiv(a, b) == 0 && TMod(a, b) == a
  {
  }

  /** Dividing an exact multiple gives the factor back with no remainder. */
  lemma ExactQuotient(k: int, b: int)
    requires b > 0
    ensures TDiv(k * b, b) == k && TMod(k * b, b) == 0
  {
    var q := TDiv(k * b, b);
    var m := TMod(k * b, b);
    var d := k - q;
    assert d * b == m by {
      assert d * b == k * b - q * b;
    }
    if d > 0 {
      MulAtLeast(d, b);
    } else if d < 0 {
      MulAtLeast(-d, b);
    }
  }

  /** The quotient and remainder are the only pair that recombines to the
      dividend with a remainder smaller than the divisor and of the
      dividend's sign. */
  lemma TruncUnique(a: int, b: int, q: int, m: int)
    requires b > 0 && q * b + m == a && Abs(m) < b
    requires a >= 0 ==> m >= 0
    requires a <= 0 ==> m <= 0
    ensures TDiv(a, b) == q && TMod(a, b) == m
  {
    var q', m' := TDiv(a, b), TMod(a, b);
    assert q' * b + m' == a && Abs(m') < b;
    assert a >= 0 ==> m' >= 0;
    assert a <= 0 ==> m' <= 0;
    QuotientUnique(q, m, q', m', b);
  }

  /** Truncation is symmetric about zero: negating the dividend negates the
      quotient and the remainder. Floor division is not. */
  lemma TruncNegate(a: int, b: int)
    requires b > 0
    ensures TDiv(-a, b) == -TDiv(a, b) && TMod(-a, b) == -TMod(a, b)
  {
    var q, m := TDiv(a, b), TMod(a, b);
    assert (-q) * b + (-m) == -a;
    TruncUnique(-a, b, -q, -m);
  }

  /** Two ways of writing the same number as a multiple of b plus an offset,
      with offsets less than b apart, use the same multiple. */
  lemma QuotientUnique(q1: int, m1: int, q2: int, m2: int, b: int)
    requires b > 0 && q1 * b + m1 == q2 * b + m2
    requires -b < m1 - m2 < b
    ensures q1 == q2 && m1 == m2
  {
    var d := q1 - q2;
    assert d * b == m2 - m1 by {
      Distribute(q1, q2, b);
    }
    if d > 0 {
      MulAtLeast(d, b);
    } else if d < 0 {
      MulAtLeast(-d, b);
    }
  }

  lemma MulCancel(x: int, y: int, b: int)
    requires b > 0 && x * b == y * b
    ensures x == y
  {
    QuotientUnique(x, 0, y, 0, b);
  }

  lemma MulAtLeast(x: int, b: int)
    requires x >= 1 && b > 0
    ensures x * b >= b
  {
  }

  lemma MulMonotone(x: int, y: int, c: int)
    requires x <= y && c >= 0
    ensures x * c <= y * c
  {
  }

  lemma Distribute(x: int, y: int, c: int)
    ensures (x + y) * c == x * c + y * c
    ensures (x - y) * c == x * c - y * c
  {
  }

  /** On non-negative dividends truncation and Euclidean division coincide. */
  lemma AgreesWithEuclidOnNonNegative(a: int, b: int)
    requires a >= 0 && b > 0
    ensures TDiv(a, b) == a / b && TMod(a, b) == a % b
  {
  }

  /** On a negative dividend they differ: -30 / 60 is 0 in C++ but -1 in Dafny. */
  lemma DiffersFromEuclidOnNegative()
    ensures TDiv(-30, 60) == 0 && TMod(-30, 60) == -30
    ensures (-30) / 60 == -1 && (-30) % 60 == 30
  {
  }
}
