/** Integer arithmetic as JavaScript's number operators perform it on integral values. */
module JsNumber {

  /** JavaScript's `%`: the remainder truncates toward zero, so it carries the
      sign of the dividend (Dafny's own `%` is Euclidean and never negative). */
  function Rem(x: int, m: int): (r: int)
    requires m > 0
    ensures -m < r < m
    ensures x >= 0 ==> 0 <= r
    ensures x <= 0 ==> r <= 0
    ensures -m < x < m ==> r == x
  {
    if x >= 0 then x % m else -((-x) % m)
  }

  /** The value of `%`: the dividend is a whole multiple of the modulus plus the
      remainder (the multiple is the quotient truncated toward zero). */
  lemma RemQuotient(x: int, m: int)
    requires m > 0
    ensures exists q: int :: x == q * m + Rem(x, m)
  {
    if x >= 0 {
      assert x == (x / m) * m + Rem(x, m);
    } else {
      assert -x == ((-x) / m) * m + (-x) % m;
      assert x == (-((-x) / m)) * m + Rem(x, m);
    }
  }

  /** `n % 2 === 0` in JavaScript holds exactly when n is even, negative n included. */
  lemma Rem2ZeroIff(x: int)
    ensures Rem(x, 2) == 0 <==> x % 2 == 0
  {
  }

  /** `((x % 3) + 3) % 3` in JavaScript normalizes any integer into {0, 1, 2},
      and agrees with the Euclidean remainder. */
  lemma NormalizedRem3(x: int)
    ensures Rem(Rem(x, 3) + 3, 3) == x % 3
  {
  }
}
