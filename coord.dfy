/** Integer arithmetic on screen coordinates (`coord_t`), as C++ performs it. */
module CoordMath {

  function Abs(x: int): nat
  {
    if x < 0 then -x else x
  }

  /** C++ integer division: the quotient is truncated toward zero, so the
      remainder is smaller than the divisor in magnitude and never has the
      opposite sign of the dividend. (Dafny's own `/` is Euclidean.) */
  function TruncDiv(a: int, b: int): (q: int)
    requires b != 0
    ensures Abs(a - q * b) < Abs(b)
    ensures a - q * b == 0 || (a - q * b > 0 <==> a > 0)
  {
    var n, d := Abs(a), Abs(b);
    var m := n / d;
    var q := if (a < 0) == (b < 0) then m else -m;
    assert 0 <= n - m * d < d && (a == 0 ==> n - m * d == 0) by { QuotientOfMagnitudes(n, d); }
    assert a - q * b == (if a < 0 then -(n - m * d) else n - m * d) by { SignedProduct(a, b, m); }
    q
  }

  /** Euclid's division of magnitudes leaves a remainder below the divisor. */
  lemma QuotientOfMagnitudes(n: nat, d: nat)
    requires d > 0
    ensures 0 <= n - (n / d) * d < d
    ensures n == 0 ==> n - (n / d) * d == 0
  {
  }

  /** Giving the magnitude quotient the sign of the true quotient gives the
      product the sign of the dividend. */
  lemma SignedProduct(a: int, b: int, m: int)
    requires b != 0
    ensures (if (a < 0) == (b < 0) then m else -m) * b ==
      (if a < 0 then -(m * Abs(b)) else m * Abs(b))
  {
    if b < 0 {
      assert m * b == -(m * Abs(b));
    }
  }
}
