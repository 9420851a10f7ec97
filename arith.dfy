/** Integer facts shared by the index computations: C's truncating remainder and the
    uniqueness of Euclidean division, from which every congruence below is derived. */
module IntArith {

  /** C and C++ `%`, with the remainder taking the sign of the dividend. On a non-negative
      dividend it is Dafny's `%`, which is also the unsigned (`size_t`) remainder of a
      dividend below 2^64; the negative branch is the signed operator's. */
  function CRem(a: int, n: int): (r: int)
    requires n > 0
    ensures a >= 0 ==> r == a % n
    ensures a < 0 ==> -n < r <= 0
  {
    if a >= 0 then a % n else -((-a) % n)
  }

  /** Quotient and remainder are unique: any decomposition with a remainder in [0, n) is
      Dafny's own (Euclidean) one. */
  lemma ModUnique(x: int, n: int, q: int, r: int)
    requires n > 0 && 0 <= r < n && x == n * q + r
    ensures x % n == r && x / n == q
  {
    var q', r' := x / n, x % n;
    assert x == n * q' + r';
    var d := q - q';
    assert n * d == r' - r by {
      assert n * q - n * q' == n * (q - q');
    }
    if d >= 1 {
      MulAtLeast(n, d);
    } else if d <= -1 {
      MulAtLeast(n, -d);
    }
  }

  lemma MulAtLeast(n: int, k: int)
    requires n > 0 && k >= 1
    ensures n * k >= n
  {
    assert n * k == n * (k - 1) + n;
  }

  /** An exact division multiplies back. */
  lemma DivExact(x: int, n: int)
    requires n > 0 && x % n == 0
    ensures x == n * (x / n)
  {
  }

  /** Whole multiples of `n` in `x` do not exceed `x`, and fewer of them do not either. */
  lemma WholeMultiplesBelow(x: nat, n: int, q: nat)
    requires n > 0 && q <= x / n
    ensures q * n <= x
  {
    assert x == n * (x / n) + x % n;
    assert (x / n) * n - q * n == (x / n - q) * n;
  }

  lemma MulNonPositive(n: int, q: int)
    requires n > 0 && q <= 0
    ensures n * q <= 0
  {
  }

  lemma MulPred(n: int, q: int)
    ensures n * (q - 1) == n * q - n
  {
  }

  /** Adding a multiple of `n` does not change the remainder. */
  lemma ModAddMultiple(x: int, n: int, k: int)
    requires n > 0
    ensures (x + n * k) % n == x % n
  {
    ModUnique(x + n * k, n, x / n + k, x % n);
  }
}
