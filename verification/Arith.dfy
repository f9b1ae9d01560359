/**
 Integer helpers shared by the models: powers of two (the source's shifts),
 rounding division, and C's division that truncates toward zero.
 */
module Arith {

  const U64: nat := 0x1_0000_0000_0000_0000
  const U32: nat := 0x1_0000_0000
  const U16: nat := 0x1_0000

  function Abs(x: int): nat {
    if x < 0 then -x else x
  }

  function Min(a: int, b: int): int {
    if a <= b then a else b
  }

  /** `x << n`, one place at a time; the callers' values never leave 64 bits. */
  function Shl(x: int, n: nat): int
    decreases n
  {
    if n == 0 then x else Shl(2 * x, n - 1)
  }

  /** `x >> n`. */
  function Shr(x: nat, n: nat): nat {
    if n == 0 then x else Shr(x / 2, n - 1)
  }

  function Pow2(n: nat): (p: nat)
    ensures p >= 1
  {
    if n == 0 then 1 else 2 * Pow2(n - 1)
  }

  /** The kernel's DIV_ROUND_UP. */
  function DivRoundUp(a: nat, b: nat): (q: nat)
    requires b > 0
    ensures (q - 1) * b < a <= q * b || (a == 0 && q == 0)
  {
    var q := (a + b - 1) / b;
    assert a + b - 1 == q * b + (a + b - 1) % b;
    q
  }

  /** C's `/` on signed operands. */
  function TruncDiv(a: int, b: int): int
    requires b > 0
  {
    if a >= 0 then a / b else -((-a) / b)
  }

  /** q is a / b rounded toward zero: less than b is left over, and q has the sign of a or is zero. */
  predicate TowardZero(q: int, a: int, b: nat) {
    && 0 <= Abs(a) - Abs(q) * b < b
    && (q > 0 ==> a > 0) && (q < 0 ==> a < 0)
  }

  lemma ZeroQuotient(b: nat)
    requires b > 0
    ensures 0 / b == 0
  {
  }

  lemma TruncDivMeaning(a: int, b: nat)
    requires b > 0
    ensures TowardZero(TruncDiv(a, b), a, b)
  {
    DivMod(Abs(a), b);
    ZeroQuotient(b);
  }

  lemma {:induction false} Pow2Add(a: nat, b: nat)
    ensures Pow2(a + b) == Pow2(a) * Pow2(b)
  {
    if a == 0 {
      assert Pow2(0) == 1;
    } else {
      Pow2Add(a - 1, b);
      assert Pow2(a + b) == 2 * Pow2(a - 1 + b);
      assert Pow2(a) * Pow2(b) == 2 * (Pow2(a - 1) * Pow2(b));
    }
  }

  lemma {:induction false} Pow2Mono(a: nat, b: nat)
    requires a <= b
    ensures Pow2(a) <= Pow2(b)
    decreases b - a
  {
    if a < b {
      Pow2Mono(a + 1, b);
      assert Pow2(a + 1) == 2 * Pow2(a);
    }
  }

  lemma {:induction false} ShlNonNeg(x: nat, n: nat)
    ensures Shl(x, n) >= x
    decreases n
  {
    if n > 0 {
      ShlNonNeg(2 * x, n - 1);
    }
  }

  lemma {:induction false} ShlIsMul(x: int, n: nat)
    ensures Shl(x, n) == x * Pow2(n)
    decreases n
  {
    if n > 0 {
      ShlIsMul(2 * x, n - 1);
      assert 2 * x * Pow2(n - 1) == x * (2 * Pow2(n - 1));
    }
  }

  lemma MulMono(a: int, b: int, p: nat)
    ensures a <= b ==> a * p <= b * p
  {
  }

  lemma Regroup(a: int, b: int, c: int)
    ensures a * (b * c) == a * b * c
  {
  }

  lemma DivMod(a: int, b: int)
    requires b > 0
    ensures a == a / b * b + a % b
  {
  }

  /** A quotient is bounded by comparing multiples. */
  lemma DivBounds(a: int, b: int, q: int)
    requires b > 0
    requires q * b <= a < q * b + b
    ensures a / b == q && a % b == a - q * b
  {
    DivMod(a, b);
    BetweenMultiples(a, b, q, a / b);
  }

  lemma BetweenMultiples(a: int, b: int, q: int, k: int)
    requires b > 0
    requires q * b <= a < q * b + b && k * b <= a < k * b + b
    ensures q == k
  {
    MulMono(q + 1, k, b);
    MulMono(k + 1, q, b);
  }

  /** Comparing a quotient is comparing with a multiple. */
  lemma DivBelow(i: int, p: int, n: int)
    requires p > 0
    ensures i / p < n <==> i < n * p
  {
    var q := i / p;
    DivMod(i, p);
    MulMono(q + 1, n, p);
    MulMono(n, q, p);
  }

  lemma {:induction false} ShrIsDiv(x: nat, n: nat)
    ensures Shr(x, n) == x / Pow2(n)
  {
    if n > 0 {
      ShrIsDiv(x / 2, n - 1);
      HalveThenDivide(x, Pow2(n - 1));
    }
  }

  lemma HalveThenDivide(x: nat, h: nat)
    requires h > 0
    ensures x / 2 / h == x / (2 * h)
  {
    var y := x / 2;
    var q, r := y / h, y % h;
    DivMod(y, h);
    TwiceWithin(x, y, h, q, r);
    DivBounds(x, 2 * h, q);
  }

  lemma TwiceWithin(x: nat, y: nat, h: nat, q: nat, r: nat)
    requires 2 * y <= x <= 2 * y + 1 && y == q * h + r && r < h
    ensures q * (2 * h) <= x < q * (2 * h) + 2 * h
  {
    assert q * (2 * h) == 2 * (q * h);
  }
}
