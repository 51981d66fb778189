/**
  Java's integer division. Java's `/` truncates toward zero, while Dafny's
  `/` on `int` is Euclidean; the two can differ only for a negative dividend.
*/
module JavaInt {

  /**
    Java `a / b` for a positive divisor: the quotient rounded toward zero,
    so the remainder `a - b * q` has the sign of the dividend and is smaller
    than the divisor in magnitude.
  */
  function Div(a: int, b: int): (q: int)
    requires b > 0
    ensures a >= 0 ==> q >= 0 && 0 <= a - b * q < b
    ensures a < 0 ==> q <= 0 && -b < a - b * q <= 0
  {
    var m := if a >= 0 then a else -a;
    DivOfNat(m, b);
    if a >= 0 then m / b else -(m / b)
  }

  /** Quotient and remainder of a natural number by a positive divisor. */
  lemma DivOfNat(m: nat, b: int)
    requires b > 0
    ensures m / b >= 0 && 0 <= m - b * (m / b) < b
    ensures b * (-(m / b)) == -(b * (m / b))
  {
  }
}
