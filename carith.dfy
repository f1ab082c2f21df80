/** C integer division.  C's `/` truncates toward zero and `%` takes the sign
    of the dividend; Dafny's operators are Euclidean.  The two agree when the
    dividend is non-negative and the divisor positive, and `%` is zero in one
    exactly when it is zero in the other. */
module CArith {

  /** C's a / b */
  function CDiv(a: int, b: int): int
    requires b != 0
  {
    if a >= 0 then (if b > 0 then a / b else -(a / -b))
    else (if b > 0 then -((-a) / b) else (-a) / (-b))
  }

  /** C's a % b */
  function CRem(a: int, b: int): int
    requires b != 0
  {
    a - b * CDiv(a, b)
  }

  /** On a non-negative dividend and a positive divisor C and Dafny agree. */
  lemma CDivNonNegative(a: int, b: int)
    requires a >= 0 && b > 0
    ensures CDiv(a, b) == a / b && CRem(a, b) == a % b
  {
  }

  /** C's remainder is zero exactly when the Euclidean one is. */
  lemma CRemZero(a: int, b: int)
    requires b != 0
    ensures CRem(a, b) == 0 <==> a % b == 0
  {
    if a >= 0 && b > 0 {
    } else if a >= 0 {
      RemNegDivisor(a, b);
    } else if b > 0 {
      NegRemZero(a, b);
    } else {
      NegRemZero(a, -b);
      RemNegDivisor(a, b);
    }
  }

  /** The Euclidean remainder ignores the divisor's sign. */
  lemma RemNegDivisor(a: int, b: int)
    requires b < 0
    ensures a % b == a % -b
  {
    var q, r := a / -b, a % -b;
    var q', r' := a / b, a % b;
    assert a == (-b) * q + r && 0 <= r < -b;
    assert a == b * q' + r' && 0 <= r' < -b;
    assert (q' + q) * (-b) == r' - r;
    MulLe(1, q' + q, -b);
    MulLe(q' + q, -1, -b);
  }

  lemma NegRemZero(a: int, b: int)
    requires a < 0 && b > 0
    ensures (-a) % b == 0 <==> a % b == 0
  {
    var q := (-a) / b;
    assert -a == q * b + (-a) % b;
    if (-a) % b == 0 {
      DivModUnique(a, b, -q, 0);
    }
    if a % b == 0 {
      assert a == (a / b) * b;
      DivModUnique(-a, b, -(a / b), 0);
    }
  }

  lemma MulPositive(a: int, b: int)
    requires a >= 1 && b >= 1
    ensures a * b >= b && a * b >= a && a * b >= 1
  {
  }

  /** Multiplying by a positive factor keeps the order. */
  lemma MulLe(a: int, b: int, p: int)
    requires p >= 0
    ensures a <= b ==> a * p <= b * p
  {
    assert b * p - a * p == (b - a) * p;
  }

  /** Quotient and remainder are determined by x = q*m + r with 0 <= r < m. */
  lemma DivModUnique(x: int, m: int, q: int, r: int)
    requires m >= 1 && 0 <= r < m && x == q * m + r
    ensures x / m == q && x % m == r
  {
    var q', r' := x / m, x % m;
    assert (q' - q) * m == r - r';
    MulLe(1, q' - q, m);
    MulLe(q' - q, -1, m);
  }

  /** The quotient of a number below e*p by p is below e. */
  lemma DivLess(x: int, p: int, e: int)
    requires p >= 1 && 0 <= x < e * p
    ensures 0 <= x / p < e
  {
    var q := x / p;
    assert x == q * p + x % p;
    MulLe(e, q, p);
    MulLe(q, -1, p);
  }

  /** Adding a multiple of m does not change the remainder. */
  lemma ModAddMultiple(y: int, k: int, m: int)
    requires m >= 1
    ensures (y + k * m) % m == y % m
  {
    DivModUnique(y + k * m, m, y / m + k, y % m);
  }

  /** (x % m + b) % m == (x + b) % m */
  lemma ModAddMod(x: int, b: int, m: int)
    requires m >= 1
    ensures (x % m + b) % m == (x + b) % m
  {
    ModAddMultiple(x % m + b, x / m, m);
  }

}
