/**
 * The blocks of one memory pool (lib_mem.c): which addresses Mem_PoolBlkFree() takes for blocks.
 */
module PoolBlks {
  import opened Arith
  import opened SegArith

  // ----- which addresses count as blocks -----

  /** Mem_PoolBlkIsValidAddr(), differences and sums taken in 32-bit registers. */
  predicate IsValidAddr(start: int, end: int, size: int, align: int, a: int)
    requires Arg(size) && Arg(align) && Stride(size, align) < U32
  {
    if a < start || a > end then false
    else
      var first := Wrap(start + AlignOffset(start, align));
      var memDiff := Wrap(a - first);
      var memAlign := Wrap(size + AlignOffset(size, align));
      StrideIsSum(size, align);
      memDiff % memAlign == 0
  }

  /** a is one of the nbr addresses that the creation loop stores. */
  ghost predicate IsBlk(start: int, nbr: int, size: int, align: int, a: int)
    requires Arg(size) && Arg(align)
  {
    exists i :: 0 <= i < nbr && a == BlkAddr(start, i, size, align)
  }

  /** nbr blocks lie between start and the top of the address space. */
  predicate InSpace(start: int, nbr: int, size: int, align: int)
  {
    && 1 <= start < U32 && Arg(nbr) && Arg(size) && Arg(align)
    && start + TotSize(start, nbr, size, align) < U32
  }

  function PoolEnd(start: int, nbr: int, size: int, align: int): int
    requires InSpace(start, nbr, size, align)
  {
    start + TotSize(start, nbr, size, align) - 1
  }

  /**
   * Where blocks fit at all, so does the distance between them: the first aligned address is not below the alignment.
   */
  lemma StrideInSpace(start: int, nbr: int, size: int, align: int)
    requires InSpace(start, nbr, size, align)
    ensures Stride(size, align) < U32
  {
    var off := AlignOffset(start, align);
    if start + off < align { ModUnique(align, 0, start + off); }
    StrideIsSum(size, align);
    MulMonotonic(Stride(size, align), 0, nbr - 1);
  }

  /** An address d octets before the first block, seen through the unsigned difference. */
  lemma GapDifference(stride: int, off: int, d: int)
    requires 1 <= d <= off < stride < U32
    ensures (U32 - d) % stride == 0 <==> d == U32 % stride
  {
    var q, r := U32 / stride, U32 % stride;
    DivMod(U32, stride);
    if d <= r {
      ModUnique(stride, q, r - d);
    } else {
      MulSub(stride, q, 1);
      ModUnique(stride, q - 1, r - d + stride);
    }
  }

  /** From the first block on, exactly the multiples of the stride are blocks. */
  lemma BlkDifference(start: int, nbr: int, size: int, align: int, a: int)
    requires Arg(nbr) && Arg(size) && Arg(align)
    requires BlkAddr(start, 0, size, align) <= a < start + TotSize(start, nbr, size, align)
    ensures (a - BlkAddr(start, 0, size, align)) % Stride(size, align) == 0 <==> IsBlk(start, nbr, size, align, a)
  {
    var first, stride := BlkAddr(start, 0, size, align), Stride(size, align);
    var diff := a - first;
    DivMod(diff, stride);
    if diff % stride == 0 {
      var k := diff / stride;
      if k >= nbr { MulMonotonic(stride, nbr, k); MulAdd(stride, nbr - 1, 1); }
      if k < 0 { MulMonotonic(stride, k, -1); }
      assert a == BlkAddr(start, k, size, align);
    }
    if IsBlk(start, nbr, size, align, a) {
      var i :| 0 <= i < nbr && a == BlkAddr(start, i, size, align);
      ModUnique(stride, i, 0);
    }
  }

  lemma BlksInRange(start: int, nbr: int, size: int, align: int, i: int)
    requires Arg(nbr) && Arg(size) && Arg(align) && 0 <= i < nbr
    ensures start + AlignOffset(start, align) <= BlkAddr(start, i, size, align)
    ensures BlkAddr(start, i, size, align) + size <= start + TotSize(start, nbr, size, align)
  {
    MulMonotonic(Stride(size, align), 0, i);
    MulMonotonic(Stride(size, align), i, nbr - 1);
  }

  lemma BlksApart(start: int, i: int, j: int, size: int, align: int)
    requires Arg(size) && Arg(align) && i < j
    ensures BlkAddr(start, i, size, align) + size <= BlkAddr(start, j, size, align)
  {
    var stride := Stride(size, align);
    MulSub(stride, j, i);
    MulAtLeast(stride, j - i);
  }

  lemma FirstBlk(start: int, nbr: int, size: int, align: int)
    requires InSpace(start, nbr, size, align)
    ensures var first := start + AlignOffset(start, align);
            BlkAddr(start, 0, size, align) == first <= PoolEnd(start, nbr, size, align)
    ensures AlignOffset(start, align) < align <= Stride(size, align)
  {
    MulMonotonic(Stride(size, align), 0, nbr - 1);
  }

  /** The address test, with the unsigned difference spelled out on either side of the first block. */
  lemma IsValidAddrIs(start: int, end: int, size: int, align: int, a: int)
    requires Arg(size) && Arg(align) && Stride(size, align) < U32
    requires 1 <= start && start + AlignOffset(start, align) <= end < U32
    ensures var first, stride := start + AlignOffset(start, align), Stride(size, align);
            IsValidAddr(start, end, size, align, a) <==>
            start <= a <= end && (if a < first then U32 - (first - a) else a - first) % stride == 0
  {
    var first := start + AlignOffset(start, align);
    StrideIsSum(size, align);
    if start <= a <= end { SubWraps(a, first); }
  }

  lemma SubWraps(x: int, y: int)
    requires 0 <= x < U32 && 0 <= y < U32
    ensures Wrap(x - y) == if x < y then U32 - (y - x) else x - y
  {}

  /**
   * The only address outside the pool's blocks that passes the test: the one whose distance before
   * the first block is the remainder of 2^32 by the stride.
   */
  lemma AcceptedAddrs(start: int, nbr: int, size: int, align: int, a: int)
    requires InSpace(start, nbr, size, align)
    ensures Stride(size, align) < U32
    ensures IsValidAddr(start, PoolEnd(start, nbr, size, align), size, align, a) <==>
            || IsBlk(start, nbr, size, align, a)
            || (start <= a < BlkAddr(start, 0, size, align)
                && BlkAddr(start, 0, size, align) - a == U32 % Stride(size, align))
  {
    hide IsValidAddr, Stride, AlignOffset;
    var off, stride := AlignOffset(start, align), Stride(size, align);
    var first := start + off;
    FirstBlk(start, nbr, size, align);
    StrideInSpace(start, nbr, size, align);
    IsValidAddrIs(start, PoolEnd(start, nbr, size, align), size, align, a);
    if IsBlk(start, nbr, size, align, a) {
      var i :| 0 <= i < nbr && a == BlkAddr(start, i, size, align);
      BlksInRange(start, nbr, size, align, i);
    }
    if start <= a < first {
      GapDifference(stride, off, first - a);
    } else if first <= a <= PoolEnd(start, nbr, size, align) {
      BlkDifference(start, nbr, size, align, a);
    }
  }

  /** No address of the leading gap passes for a block: something to check before a pool is created. */
  predicate ExactStride(start: int, size: int, align: int)
    requires Arg(size) && Arg(align)
  {
    U32 % Stride(size, align) == 0 || U32 % Stride(size, align) > AlignOffset(start, align)
  }

  /** The address test accepts exactly the pool's blocks if and only if the stride is exact. */
  lemma IsValidAddrExactIff(start: int, nbr: int, size: int, align: int)
    requires InSpace(start, nbr, size, align)
    ensures Stride(size, align) < U32
    ensures (forall a :: IsValidAddr(start, PoolEnd(start, nbr, size, align), size, align, a)
                         <==> IsBlk(start, nbr, size, align, a))
            <==> ExactStride(start, size, align)
  {
    StrideInSpace(start, nbr, size, align);
    var off, stride, end := AlignOffset(start, align), Stride(size, align), PoolEnd(start, nbr, size, align);
    var r := U32 % stride;
    forall a ensures IsValidAddr(start, end, size, align, a) <==>
                     IsBlk(start, nbr, size, align, a) || (start <= a && 1 <= start + off - a == r) {
      AcceptedAddrs(start, nbr, size, align, a);
    }
    if 1 <= r <= off { GapAccepted(start, nbr, size, align); }
  }

  /** With an inexact stride, one address of the leading gap passes for a block. */
  lemma GapAccepted(start: int, nbr: int, size: int, align: int)
    requires InSpace(start, nbr, size, align) && !ExactStride(start, size, align)
    ensures Stride(size, align) < U32
    ensures var a := start + AlignOffset(start, align) - U32 % Stride(size, align);
            IsValidAddr(start, PoolEnd(start, nbr, size, align), size, align, a) && !IsBlk(start, nbr, size, align, a)
  {
    var a := start + AlignOffset(start, align) - U32 % Stride(size, align);
    AcceptedAddrs(start, nbr, size, align, a);
    if IsBlk(start, nbr, size, align, a) {
      var i :| 0 <= i < nbr && a == BlkAddr(start, i, size, align);
      BlksInRange(start, nbr, size, align, i);
    }
  }

  /**
   * There are such strides: with blocks of 3 octets aligned to 3, the pool's very start passes for a block and is
   * none.
   */
  lemma InexactStrideExample()
    ensures InSpace(0x2000_0000, 10, 3, 3) && Stride(3, 3) == 3 && !ExactStride(0x2000_0000, 3, 3)
    ensures IsValidAddr(0x2000_0000, PoolEnd(0x2000_0000, 10, 3, 3), 3, 3, 0x2000_0000)
    ensures !IsBlk(0x2000_0000, 10, 3, 3, 0x2000_0000)
  {
    GapAccepted(0x2000_0000, 10, 3, 3);
  }

  lemma {:induction false} PowerOfTwoDivides(k: nat, n: nat)
    requires k <= n
    ensures Power(2, n) % Power(2, k) == 0
  {
    if k == 0 {
    } else {
      PowerOfTwoDivides(k - 1, n - 1);
      ModHalve(Power(2, k - 1), Power(2, n - 1));
    }
  }

  /** The remainder of 2^32 is wider than any leading gap. */
  predicate AlwaysExact(size: int, align: int)
    requires Arg(size) && Arg(align)
  {
    U32 % Stride(size, align) == 0 || U32 % Stride(size, align) >= align
  }

  /** This makes a stride exact wherever a pool comes to lie, and nothing less does. */
  lemma AlwaysExactIff(size: int, align: int)
    requires Arg(size) && Arg(align)
    ensures (forall start :: 1 <= start < U32 ==> ExactStride(start, size, align)) <==> AlwaysExact(size, align)
  {
    if align > 1 { ModUnique(align, 1, 0); }
    AlignOffsetUnique(1, align, align - 1);
    assert ExactStride(1, size, align) <==> AlwaysExact(size, align);
  }

  /** A power-of-two alignment is always exact. */
  lemma PowerOfTwoIsExact(size: int, k: nat)
    requires k <= 31 && Arg(size) && Arg(Power(2, k))
    ensures AlwaysExact(size, Power(2, k))
  {
    hide Power, Stride, AlignOffset;
    var align := Power(2, k);
    var stride := Stride(size, align);
    PowerOfTwoDivides(k, 32);
    PowersOfTwo();
    CommonDivisor(align, stride, U32);
    if 0 < U32 % stride < align { ModUnique(align, 0, U32 % stride); }
  }

  lemma CommonDivisor(d: int, x: int, y: int)
    requires d > 0 && x > 0 && x % d == 0 && y % d == 0
    ensures y % x % d == 0
  {
    DivMod(y, x);
    DivMod(x, d);
    MulAssoc(d, x / d, y / x);
    ModAddMultiple(d, y % x, x / d * (y / x));
  }
}
