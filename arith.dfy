/** C integer division on unbounded integers.
  *
  * Dafny's `/` is Euclidean (the remainder is never negative).  C's `/`
  * on `int` truncates toward zero (section 6.5.5 of ISO/IEC 9899:1999): the
  * quotient is the algebraic quotient with any fractional part discarded,
  * so the remainder `a - (a / b) * b` takes the sign of the dividend.
  */
module Arith {

  function Abs(x: int): (r: nat)
    ensures r == x || r == -x
  {
    if x < 0 then -x else x
  }

  /** The quotient of the magnitudes, negated when exactly one operand is
    * negative. */
  function MagnitudeQuotient(a: int, b: int): int
    requires b != 0
  {
    if (a < 0) == (b < 0) then Abs(a) / Abs(b) else -(Abs(a) / Abs(b))
  }

  /** The quotient times the divisor is the product of the magnitudes,
    * carrying the dividend's sign. */
  lemma {:induction false} QuotientTimesDivisor(a: int, b: int)
    requires b != 0
    ensures var p := (Abs(a) / Abs(b)) * Abs(b);
      MagnitudeQuotient(a, b) * b == (if a < 0 then -p else p)
  {
    var m, y := Abs(a) / Abs(b), Abs(b);
    var q := MagnitudeQuotient(a, b);
    if a < 0 && b < 0 {
      assert q * b == m * (-y) == -(m * y);
    } else if a < 0 {
      assert q * b == (-m) * y == -(m * y);
    } else if b < 0 {
      assert q * b == (-m) * (-y) == m * y;
    }
  }

  /** Euclidean division of naturals. */
  lemma {:induction false} NaturalDivision(x: nat, y: nat)
    requires 0 < y
    ensures x == (x / y) * y + x % y && 0 <= x % y < y && 0 <= (x / y) * y
  {
  }

  /** The linear part of the argument below: a dividend `a` of magnitude
    * `x == p + r`, with `0 <= r < y`, minus `±p` (the sign of `a`) leaves
    * the remainder `±r`. */
  lemma {:induction false} SignedRemainder(a: int, x: int, y: int, r: int, p: int, qb: int)
    requires x == Abs(a) && 0 <= r < y && 0 <= p && x == p + r
    requires qb == (if a < 0 then -p else p)
    ensures Abs(a - qb) < y
    ensures 0 <= a ==> 0 <= qb <= a
    ensures a < 0 ==> a <= qb <= 0
  {
  }

  /** The magnitude quotient is C's division: `q * b` lies between 0 and
    * the dividend, and the remainder `a - q * b` is smaller than the
    * divisor in magnitude. */
  lemma {:induction false} MagnitudeQuotientRemainder(a: int, b: int)
    requires b != 0
    ensures var qb := MagnitudeQuotient(a, b) * b;
      Abs(a - qb) < Abs(b) && (0 <= a ==> 0 <= qb <= a) && (a < 0 ==> a <= qb <= 0)
  {
    var x, y := Abs(a), Abs(b);
    NaturalDivision(x, y);
    QuotientTimesDivisor(a, b);
    SignedRemainder(a, x, y, x % y, (x / y) * y, MagnitudeQuotient(a, b) * b);
  }

  /** The value of C's `a / b` for `b != 0`: the quotient rounded toward
    * zero, so that `q * b` lies between 0 and the dividend, and the
    * remainder `a - q * b` (zero or of the dividend's sign) is smaller than
    * the divisor in magnitude.  These determine `q`. */
  function TruncDiv(a: int, b: int): (q: int)
    requires b != 0
    ensures Abs(a - q * b) < Abs(b)
    ensures 0 <= a ==> 0 <= q * b <= a
    ensures a < 0 ==> a <= q * b <= 0
  {
    MagnitudeQuotientRemainder(a, b);
    MagnitudeQuotient(a, b)
  }

  /** C truncates where Dafny (and Python) round toward negative infinity. */
  lemma TruncDivExamples()
    ensures TruncDiv(7, 2) == 3
    ensures TruncDiv(-7, 2) == -3
    ensures TruncDiv(7, -2) == -3
    ensures TruncDiv(-11, 2) == -5 && -11 / 2 == -6
  {
  }
}
