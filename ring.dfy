/** Index arithmetic of the gallery: JavaScript's `%` and the circular
    successor and predecessor built from it. */
module Ring {

  /** JavaScript's `a % n` for a positive divisor: the remainder of division
      truncated toward zero, so it takes the sign of `a`. Unlike Dafny's `%`,
      it is negative for a negative `a` that is not a multiple of `n`. */
  function JsRem(a: int, n: int): (r: int)
    requires n > 0
    ensures 0 <= a ==> 0 <= r < n && r == a % n
    ensures a < 0 ==> -n < r <= 0
  {
    if a >= 0 then a % n else -((-a) % n)
  }

  /** `JsRem` is the remainder of the division truncated toward zero: `a` is
      `r` plus a multiple `q * n` whose quotient `q` has the sign of `a`, and
      for a negative dividend it is the negated remainder of `-a`. Together
      with the bounds of `JsRem` this fixes its value. */
  lemma JsRemIsTruncatedRemainder(a: int, n: int)
    requires n > 0
    ensures exists q :: a == q * n + JsRem(a, n) && (a >= 0 ==> q >= 0) && (a < 0 ==> q <= 0)
    ensures a < 0 ==> JsRem(a, n) == -JsRem(-a, n)
  {
    if a >= 0 {
      EuclideanDivision(a, n);
      var q := a / n;
      assert a == q * n + JsRem(a, n);
    } else {
      EuclideanDivision(-a, n);
      var q := -((-a) / n);
      assert -a == ((-a) / n) * n + (-a) % n;
      assert a == q * n + JsRem(a, n);
    }
  }

  /** Dafny's division of a non-negative dividend: a non-negative quotient. */
  lemma EuclideanDivision(a: int, n: int)
    requires n > 0 && a >= 0
    ensures a == (a / n) * n + a % n && a / n >= 0
  {
  }

  /** `(i + 1) % len` (main.js lines 314, 338 and 367). */
  function NextIndex(i: int, len: int): (r: int)
    requires len > 0
    ensures -1 <= i < len ==> 0 <= r < len && r == (if i == len - 1 then 0 else i + 1)
    ensures i < -1 ==> r <= 0
  {
    JsRem(i + 1, len)
  }

  /** `(i - 1 + len) % len` (main.js lines 339 and 373). */
  function PrevIndex(i: int, len: int): (r: int)
    requires len > 0
    ensures 0 <= i < len ==> 0 <= r < len && r == (if i == 0 then len - 1 else i - 1)
    ensures 1 - len <= i ==> 0 <= r < len
    ensures i == -1 && len >= 2 ==> r == len - 2
  {
    JsRem(i - 1 + len, len)
  }

  /** Stepping forward and then back, or back and then forward, returns to the
      index one started from. */
  lemma NextPrevInverse(i: int, len: int)
    requires 0 <= i < len
    ensures PrevIndex(NextIndex(i, len), len) == i
    ensures NextIndex(PrevIndex(i, len), len) == i
  {
  }
}
