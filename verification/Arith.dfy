/** Machine-word arithmetic and the few facts about remainders that the other modules share. */
module Arith {

  /** One past the largest CPU_INT32U, CPU_ADDR and CPU_SIZE_T. */
  const U32: int := 0x1_0000_0000

  /** The largest of them. */
  const UINT_MAX: int := 0xFFFF_FFFF

  /** What a 32-bit unsigned register keeps of a mathematical integer. */
  function Wrap(x: int): (w: int)
    ensures 0 <= w < U32
    ensures 0 <= x < U32 ==> w == x
  {
    x % U32
  }

  /** A 32-bit sum of two registers comes out below an operand exactly when it overflows. */
  lemma SumWraps(x: int, y: int)
    requires 0 <= x < U32 && 0 <= y < U32
    ensures Wrap(x + y) == if x + y < U32 then x + y else x + y - U32
    ensures Wrap(x + y) < x <==> x + y >= U32
    ensures Wrap(x + y) < y <==> x + y >= U32
  {}

  function Min(x: int, y: int): int { if x <= y then x else y }

  function Power(base: int, n: nat): (p: int)
    requires base >= 1
    ensures p >= 1
  {
    if n == 0 then 1 else (MulAtLeast(base, Power(base, n - 1)); base * Power(base, n - 1))
  }

  lemma PowersOfTwo()
    ensures Power(2, 31) == 0x8000_0000 && Power(2, 32) == U32
  {
    assert Power(2, 8) == 0x100;
    assert Power(2, 16) == 0x1_0000;
    assert Power(2, 24) == 0x100_0000;
    assert Power(2, 31) == 0x8000_0000;
  }

  // ----- products, one fact at a time -----

  lemma MulAtLeast(d: int, k: int)
    requires d > 0 && k >= 1
    ensures d * k >= d
  {}

  lemma MulSub(d: int, x: int, y: int)
    ensures d * (x - y) == d * x - d * y
  {}

  lemma MulAdd(d: int, x: int, y: int)
    ensures d * (x + y) == d * x + d * y
  {}

  lemma MulAssoc(x: int, y: int, z: int)
    ensures (x * y) * z == x * (y * z)
  {}

  lemma MulSwap(x: int, y: int, z: int)
    ensures x * (y * z) == y * (x * z)
  {}

  lemma MulMonotonic(d: int, x: int, y: int)
    requires d >= 0 && x <= y
    ensures d * x <= d * y
  {}

  // ----- remainders -----

  lemma ModUnique(d: int, q: int, r: int)
    requires 0 <= r < d
    ensures (d * q + r) % d == r && (d * q + r) / d == q
  {
    var x := d * q + r;
    var q', r' := x / d, x % d;
    DivMod(x, d);
    MulSub(d, q, q');
    MulSub(d, q', q);
    if q' < q { MulAtLeast(d, q - q'); }
    if q' > q { MulAtLeast(d, q' - q); }
  }

  lemma DivMod(x: int, d: int)
    requires d > 0
    ensures x == d * (x / d) + x % d && 0 <= x % d < d
  {}

  lemma ModAddMultiple(d: int, x: int, q: int)
    requires d > 0
    ensures (x + d * q) % d == x % d
  {
    DivMod(x, d);
    ModUnique(d, x / d + q, x % d);
    MulAdd(d, x / d, q);
  }

  lemma ModCongruent(d: int, x: int, y: int)
    requires d > 0
    ensures x % d == y % d <==> (x - y) % d == 0
  {
    DivMod(x, d);
    DivMod(y, d);
    DivMod(x - y, d);
    if x % d == y % d {
      MulSub(d, x / d, y / d);
      ModUnique(d, x / d - y / d, 0);
    }
    if (x - y) % d == 0 {
      ModAddMultiple(d, y, (x - y) / d);
    }
  }

  lemma ModOfSum(d: int, x: int, y: int)
    requires d > 0
    ensures (x % d + y) % d == (x + y) % d
  {
    DivMod(x, d);
    ModAddMultiple(d, x % d + y, x / d);
  }

  lemma ModOfProduct(d: int, a: int, x: int)
    requires d > 0
    ensures (a * (x % d)) % d == (a * x) % d
  {
    DivMod(x, d);
    MulAdd(a, d * (x / d), x % d);
    MulSwap(a, d, x / d);
    ModAddMultiple(d, a * (x % d), a * (x / d));
  }

  lemma ModOfMod(d: int, k: int, x: int)
    requires d > 0 && k > 0
    ensures d * k > 0 && (x % (d * k)) % d == x % d
  {
    MulAtLeast(d, k);
    var q := x / (d * k);
    DivMod(x, d * k);
    MulAssoc(d, k, q);
    ModAddMultiple(d, x % (d * k), k * q);
  }

  lemma ModHalve(p: int, x: int)
    requires p > 0
    ensures (2 * x) % (2 * p) == 0 <==> x % p == 0
  {
    var q, r := x / p, x % p;
    DivMod(x, p);
    MulAssoc(2, p, q);
    ModUnique(2 * p, q, 2 * r);
  }
}
