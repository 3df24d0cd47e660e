/** Integer semantics of the C expressions in bufferlib.c, written out on
    Dafny's unbounded integers: truncating division, the conversion of a signed
    value to `size_t`, and the conversion back to a 32-bit `int`. */
module CArith {

  const INT_MIN: int := -0x8000_0000
  const INT_MAX: int := 0x7FFF_FFFF
  const TWO32: int := 0x1_0000_0000
  const TWO64: int := 0x1_0000_0000_0000_0000

  /** C's `/` on signed integers: the quotient is truncated toward zero
      (Dafny's own `/` is Euclidean). */
  function CDiv(a: int, b: nat): (q: int)
    requires b > 0
    ensures 0 <= a ==> 0 <= q * b <= a < q * b + b
    ensures a < 0 ==> q * b - b < a <= q * b <= 0
  {
    if a >= 0 then DivBounds(a, b); a / b
    else DivBounds(-a, b); -((-a) / b)
  }

  /** Euclidean division of a natural number: the quotient's multiple lies
      within one divisor below the dividend. */
  lemma DivBounds(a: nat, b: nat)
    requires b > 0
    ensures 0 <= (a / b) * b <= a < (a / b) * b + b
  {
    assert a == (a / b) * b + a % b;
  }

  /** A value stored into a 32-bit `int`: reduced modulo 2^32 into the
      two's-complement range, which is what gcc does. */
  function ToInt32(x: int): (r: int)
    ensures INT_MIN <= r <= INT_MAX
    ensures (x - r) % TWO32 == 0
    ensures INT_MIN <= x <= INT_MAX ==> r == x
  {
    (x - INT_MIN) % TWO32 + INT_MIN
  }

  /** Values congruent modulo 2^32 are stored into an `int` as the same
      value; in particular a `size_t` result is stored as its signed value. */
  lemma ToInt32Congruent(x: int, y: int)
    requires (x - y) % TWO32 == 0
    ensures ToInt32(x) == ToInt32(y)
  {
    var d := (x - y) / TWO32;
    assert x - y == d * TWO32;
    assert (x - INT_MIN) == (y - INT_MIN) + d * TWO32;
  }

  /** A signed value converted to the 64-bit unsigned `size_t`, as happens
      when a `ssize_t` meets `sizeof(...)` in one expression. */
  function ToSize(x: int): (r: nat)
    ensures r < TWO64
    ensures (x - r) % TWO64 == 0
    ensures 0 <= x < TWO64 ==> r == x
  {
    x % TWO64
  }

  /** Multiplying both sides of `x <= y` by a non-negative factor. */
  lemma MulLe(x: int, y: int, u: nat)
    requires x <= y
    ensures x * u <= y * u
  {
    assert y * u - x * u == (y - x) * u;
  }

  /** Multiplication distributes over addition. */
  lemma MulAdd(a: int, b: int, u: int)
    ensures (a + b) * u == a * u + b * u
  {
  }

  /** A multiple of `u` leaves no remainder. */
  lemma MulMod(q: int, u: nat)
    requires u > 0
    ensures (q * u) % u == 0
  {
    DivMulPlus(q, u, 0);
    assert q * u == u * ((q * u) / u) + (q * u) % u;
  }

  /** Dividing `a * u + t` by `u` drops a remainder `t` smaller than `u`. */
  lemma DivMulPlus(a: int, u: nat, t: nat)
    requires t < u
    ensures (a * u + t) / u == a
  {
    var q := (a * u + t) / u;
    var r := (a * u + t) % u;
    assert a * u + t == q * u + r;
    if q < a {
      MulLe(q, a - 1, u);
      assert false;
    } else if q > a {
      MulLe(a + 1, q, u);
      assert false;
    }
  }

  /** Two naturals between a multiple of `u` and the next one share their
      quotient. */
  lemma SameQuotient(a: nat, b: nat, u: nat)
    requires u > 0 && (b / u) * u <= a <= b
    ensures a / u == b / u
  {
    var qa, qb := a / u, b / u;
    DivBounds(a, u);
    DivBounds(b, u);
    if qa < qb {
      MulLe(qa + 1, qb, u);
      MulAdd(qa, 1, u);
      assert false;
    } else if qb < qa {
      MulLe(qb + 1, qa, u);
      MulAdd(qb, 1, u);
      assert false;
    }
  }

  /** Just below a multiple of `u` the quotient drops by one. */
  lemma QuotientBelowMultiple(i: nat, u: nat)
    requires u > 0 && i >= 1 && (i / u) * u == i
    ensures (i - 1) / u == i / u - 1
  {
    var q := i / u;
    assert q >= 1 by {
      if q == 0 { assert false; }
    }
    MulAdd(q - 1, 1, u);
    DivMulPlus(q - 1, u, u - 1);
  }

  /** The number of `u`-sized pages that `n >= 1` items fill, rounded up. */
  lemma PagesRoundedUp(n: nat, u: nat)
    requires u > 0 && n >= 1
    ensures (n - 1) / u + 1 == (n + u - 1) / u
  {
    var q := (n - 1) / u;
    var t := (n - 1) % u;
    assert n - 1 == q * u + t;
    MulAdd(q, 1, u);
    DivMulPlus(q + 1, u, t);
  }
}
