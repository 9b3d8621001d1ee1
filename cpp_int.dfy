/** C++ integer division and remainder on `int`.
 *
 *  Dafny's `/` and `%` are Euclidean (the remainder is never negative); C++
 *  (since C++11) truncates the quotient toward zero, so the remainder takes
 *  the sign of the dividend. This module states the C++ operators explicitly
 *  and proves the identity the C++ standard ties them together with
 *  (`(a / b) * b + a % b == a`, section [expr.mul] of ISO/IEC 14882). */
module CppInt {

  const INT32_MAX: int := 0x7fff_ffff

  function Abs(x: int): nat {
    if x < 0 then -x else x
  }

  /** C++ `a / b`: the quotient of the magnitudes, negated when the signs differ. */
  function TruncDiv(a: int, b: int): (q: int)
    requires b != 0
    ensures Abs(q) == Abs(a) / Abs(b)
    ensures q == 0 || ((q < 0) <==> ((a < 0) != (b < 0)))
  {
    var m := Abs(a) / Abs(b);
    assert m >= 0 by {
      NonNegativeQuotient(Abs(a), Abs(b));
    }
    if (a < 0) == (b < 0) then m else -m
  }

  lemma NonNegativeQuotient(x: nat, y: nat)
    requires y > 0
    ensures x / y >= 0
  {
  }

  /** C++ `a % b`: the remainder of the magnitudes, carrying the sign of `a`. */
  function TruncRem(a: int, b: int): (r: int)
    requires b != 0
    ensures Abs(r) < Abs(b)
    ensures a >= 0 ==> r >= 0
    ensures a < 0 ==> r <= 0
  {
    if a >= 0 then a % Abs(b) else -((-a) % Abs(b))
  }

  /** The identity that defines the C++ remainder from the C++ quotient. */
  lemma {:induction false} TruncDivRem(a: int, b: int)
    requires b != 0
    ensures TruncDiv(a, b) * b + TruncRem(a, b) == a
  {
    var m, r := Abs(a) / Abs(b), Abs(a) % Abs(b);
    assert m * Abs(b) + r == Abs(a);
    var q := TruncDiv(a, b);
    if (a < 0) == (b < 0) {
      assert q == m;
      NegateBoth(m, Abs(b));
    } else {
      assert q == -m;
      NegateOne(m, Abs(b));
    }
  }

  lemma NegateBoth(x: int, y: int)
    ensures (-x) * (-y) == x * y
  {
  }

  lemma NegateOne(x: int, y: int)
    ensures (-x) * y == -(x * y) && x * (-y) == -(x * y)
  {
  }

  /** A non-zero multiple of `b` is at least `b` away from zero. */
  lemma {:induction false} NonZeroMultiple(k: int, b: int)
    requires b > 0 && k != 0
    ensures k > 0 ==> k * b >= b
    ensures k < 0 ==> k * b <= -b
    decreases Abs(k)
  {
    if k > 1 {
      NonZeroMultiple(k - 1, b);
      assert k * b == (k - 1) * b + b;
    } else if k < -1 {
      NonZeroMultiple(k + 1, b);
      assert k * b == (k + 1) * b - b;
    }
  }

  /** Dafny's Euclidean remainder is the unique `r` in `[0, b)` with
   *  `a == q * b + r` for some integer `q`. */
  lemma {:induction false} EuclideanUnique(a: int, b: int, q: int, r: int)
    requires b > 0
    requires a == q * b + r
    requires 0 <= r < b
    ensures a % b == r
    ensures a / b == q
  {
    var q', r' := a / b, a % b;
    assert q' * b + r' == a;
    assert (q - q') * b == r' - r;
    if q != q' {
      NonZeroMultiple(q - q', b);
      assert false;
    }
  }
}
