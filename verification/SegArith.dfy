/**
 * Address arithmetic of the memory segments (lib_mem.c): what one allocation consumes, what a run
 * of allocations consumes, and the closed form that is meant to predict it.
 */
module SegArith {
  import opened Arith

  /** Octets to skip so that x becomes a multiple of align. */
  function AlignOffset(x: int, align: int): (off: int)
    requires align >= 1
    ensures 0 <= off < align
    ensures (x + off) % align == 0
  {
    var r := x % align;
    DivMod(x, align);
    ModUnique(align, x / align, 0);
    ModUnique(align, x / align + 1, 0);
    MulAdd(align, x / align, 1);
    if r != 0 then align - r else 0
  }

  lemma AlignOffsetUnique(x: int, align: int, off: int)
    requires align >= 1 && 0 <= off < align && (x + off) % align == 0
    ensures off == AlignOffset(x, align)
  {
    var off' := AlignOffset(x, align);
    ModCongruent(align, x + off, x + off');
    ModCongruent(align, x + off', x + off);
    if off > off' { ModUnique(align, 0, off - off'); }
    if off' > off { ModUnique(align, 0, off' - off); }
  }

  /** A 32-bit address or size that has passed the argument checks. */
  predicate Arg(x: int) { 1 <= x < U32 }

  /** Distance between the starts of two consecutive blocks. */
  function Stride(size: int, align: int): (s: int)
    requires Arg(size) && Arg(align)
    ensures s >= size && s >= align && s % align == 0
  {
    var off := AlignOffset(size, align);
    if size + off < align then (ModUnique(align, 0, size + off); size + off) else size + off
  }

  /** Octets that n blocks take from addr on, in unbounded arithmetic. */
  function TotSize(addr: int, n: int, size: int, align: int): (t: int)
    requires n >= 1 && Arg(size) && Arg(align)
    ensures t >= AlignOffset(addr, align) + size
  {
    MulMonotonic(Stride(size, align), 0, n - 1);
    AlignOffset(addr, align) + Stride(size, align) * (n - 1) + size
  }

  /** Mem_PoolSegCalcTotSize(): the same sum in 32-bit registers, with the code's overflow tests; 0 reports overflow. */
  function CalcTotSize(addr: int, n: int, size: int, align: int): (t: int)
    requires 0 <= addr < U32 && Arg(n) && Arg(size) && Arg(align)
    ensures 0 <= t < U32
  {
    var memAlignOffset := AlignOffset(addr, align);
    var blkAlignOffset := AlignOffset(size, align);
    var sizeAligned := Wrap(size + blkAlignOffset);
    var sizeAlignedNbr := Wrap(sizeAligned * (n - 1));
    var sizeTot := Wrap(Wrap(memAlignOffset + sizeAlignedNbr) + size);
    var sizeMemAligned := Wrap(memAlignOffset + size);
    if sizeMemAligned < memAlignOffset || sizeMemAligned < size then 0
    else if n == 1 then sizeTot
    else if sizeAligned < blkAlignOffset || sizeAligned < size then 0
    else if sizeAlignedNbr < sizeAligned || sizeAlignedNbr < blkAlignOffset || sizeAlignedNbr < size then 0
    else CheckedTotal(sizeTot, sizeMemAligned, sizeAlignedNbr, size)
  }

  /** The last of its tests. */
  function CheckedTotal(sizeTot: int, sizeMemAligned: int, sizeAlignedNbr: int, size: int): int
  {
    var sizeBlks := Wrap(sizeAlignedNbr + size);
    if sizeBlks < sizeAlignedNbr || sizeBlks < size then 0
    else if sizeTot < sizeMemAligned || sizeTot < sizeAlignedNbr || sizeTot < sizeBlks then 0
    else sizeTot
  }

  /** They tell whether the sum of the three parts overflows. */
  lemma CheckedTotalExact(a: int, p: int, size: int)
    requires 0 <= a < U32 && 0 <= p < U32 && Arg(size) && a + size < U32
    ensures CheckedTotal(Wrap(Wrap(a + p) + size), Wrap(a + size), p, size)
            == if a + p + size >= U32 then 0 else a + p + size
  {
    hide Wrap;
    SumWraps(a, size);
    SumWraps(p, size);
    SumWraps(a, p);
    SumWraps(Wrap(a + p), size);
  }

  /** The multiplication overflows without tripping any of the comparisons that guard it. */
  predicate MulOvfMissed(addr: int, n: int, size: int, align: int)
    requires n >= 1 && Arg(size) && Arg(align)
  {
    var stride := Stride(size, align);
    var product := Wrap(stride * (n - 1));
    && stride < U32 <= stride * (n - 1)
    && stride <= product < U32 - size - AlignOffset(addr, align)
  }

  lemma StrideIsSum(size: int, align: int)
    requires Arg(size) && Arg(align)
    ensures Stride(size, align) == size + AlignOffset(size, align)
  {}

  lemma CalcTotSizeSingle(addr: int, size: int, align: int)
    requires 0 <= addr < U32 && Arg(size) && Arg(align)
    ensures var t := TotSize(addr, 1, size, align);
            CalcTotSize(addr, 1, size, align) == if t < U32 then t else 0
  {
    SumWraps(AlignOffset(addr, align), size);
    assert Wrap(size + AlignOffset(size, align)) * 0 == 0;
    assert Stride(size, align) * 0 == 0;
  }

  lemma CalcTotSizeWideStride(addr: int, n: int, size: int, align: int)
    requires 0 <= addr < U32 && Arg(n) && n > 1 && Arg(size) && Arg(align)
    requires Stride(size, align) >= U32
    ensures CalcTotSize(addr, n, size, align) == 0 && TotSize(addr, n, size, align) >= U32
  {
    StrideIsSum(size, align);
    SumWraps(size, AlignOffset(size, align));
    MulAtLeast(Stride(size, align), n - 1);
  }

  /** The remaining case, with the product as an opaque number. */
  lemma CalcTotSizeMany(addr: int, n: int, size: int, align: int, product: int)
    requires 0 <= addr < U32 && Arg(n) && n > 1 && Arg(size) && Arg(align)
    requires Stride(size, align) < U32 && product == Stride(size, align) * (n - 1)
    ensures var a, stride, p := AlignOffset(addr, align), Stride(size, align), Wrap(product);
            CalcTotSize(addr, n, size, align) == if p < stride || a + p + size >= U32 then 0 else a + p + size
  {
    hide Wrap, CheckedTotal, Stride, AlignOffset;
    var a, b, p := AlignOffset(addr, align), AlignOffset(size, align), Wrap(product);
    StrideIsSum(size, align);
    SumWraps(size, b);
    assert Wrap(size + b) == Stride(size, align);
    SumWraps(a, size);
    if a + size < U32 { CheckedTotalExact(a, p, size); }
  }

  /**
   * The closed form is right -- it returns the total, or 0 when the total does not fit a
   * CPU_SIZE_T -- except in the one case where the product's overflow goes unnoticed.
   */
  lemma CalcTotSizeCorrectIff(addr: int, n: int, size: int, align: int)
    requires 0 <= addr < U32 && Arg(n) && Arg(size) && Arg(align)
    ensures var t := TotSize(addr, n, size, align);
            CalcTotSize(addr, n, size, align) == (if t < U32 then t else 0) <==> !MulOvfMissed(addr, n, size, align)
  {
    var stride := Stride(size, align);
    var product := stride * (n - 1);
    if n == 1 {
      CalcTotSizeSingle(addr, size, align);
      assert product == 0;
    } else if stride >= U32 {
      CalcTotSizeWideStride(addr, n, size, align);
    } else {
      MulAtLeast(stride, n - 1);
      CalcTotSizeMany(addr, n, size, align, product);
    }
  }

  /** The case exists: 49153 blocks of 128 KiB are taken to need only about 2 GiB. */
  lemma MulOvfMissedExample()
    ensures MulOvfMissed(0x2000_0000, 49153, 0x2_0000, 4)
    ensures CalcTotSize(0x2000_0000, 49153, 0x2_0000, 4) == 0x8002_0000
    ensures TotSize(0x2000_0000, 49153, 0x2_0000, 4) == 0x1_8002_0000
  {}

  // ----- segments -----

  /** SegAddr, SegAddrNextAvail, SegSizeRem and SegSizeTot of a segment's head. */
  datatype Seg = Seg(base: int, next: int, rem: int, tot: int) {
    predicate Valid() {
      && 1 <= base <= next < U32
      && 0 <= rem
      && 1 <= tot
      && next - base + rem == tot
      && base + tot <= U32
    }

    /** First address past the segment. */
    function End(): int { base + tot }
  }

  /** Mem_PoolSegAlloc(): the block's address, 0 for NULL, and the segment afterwards. */
  function SegAlloc(s: Seg, size: int, align: int): (r: (int, Seg))
    requires Arg(size) && Arg(align)
  {
    var alignOffset := AlignOffset(s.next, align);
    var sizeTot := Wrap(alignOffset + size);
    if sizeTot > s.rem then (0, s)
    else if sizeTot < alignOffset || sizeTot < size then (0, s)
    else
      var next := Wrap(s.next + sizeTot);
      if next < s.next then (0, s)
      else (s.next + alignOffset, Seg(s.base, next, s.rem - sizeTot, s.tot))
  }

  /** n blocks fit: the total is within what remains, and their end is still a 32-bit address. */
  predicate Fits(s: Seg, n: int, size: int, align: int)
    requires n >= 1 && Arg(size) && Arg(align)
  {
    TotSize(s.next, n, size, align) <= s.rem && s.next + TotSize(s.next, n, size, align) < U32
  }

  /** The segment with n blocks taken from it. */
  function Advance(s: Seg, n: int, size: int, align: int): Seg
    requires n >= 0 && Arg(size) && Arg(align)
  {
    if n == 0 then s
    else var t := TotSize(s.next, n, size, align); Seg(s.base, s.next + t, s.rem - t, s.tot)
  }

  /** Address of the i-th block taken from address start on. */
  function BlkAddr(start: int, i: int, size: int, align: int): int
    requires Arg(size) && Arg(align)
  {
    start + AlignOffset(start, align) + Stride(size, align) * i
  }

  lemma SegAllocExact(s: Seg, size: int, align: int)
    requires s.Valid() && Arg(size) && Arg(align)
    ensures SegAlloc(s, size, align)
            == if Fits(s, 1, size, align) then (BlkAddr(s.next, 0, size, align), Advance(s, 1, size, align)) else (0, s)
  {
    var off := AlignOffset(s.next, align);
    assert TotSize(s.next, 1, size, align) == off + size;
    assert BlkAddr(s.next, 0, size, align) == s.next + off;
    SumWraps(off, size);
    if off + size < U32 { SumWraps(s.next, off + size); }
  }

  lemma BlkAddrAligned(start: int, i: int, size: int, align: int)
    requires Arg(size) && Arg(align)
    ensures BlkAddr(start, i, size, align) % align == 0
  {
    var stride := Stride(size, align);
    DivMod(stride, align);
    MulAssoc(align, stride / align, i);
    ModAddMultiple(align, start + AlignOffset(start, align), stride / align * i);
  }

  /** Where n blocks end, the gap to the next one is the alignment offset of a block's size. */
  lemma NextBlock(s: Seg, n: int, size: int, align: int)
    requires n >= 1 && Arg(size) && Arg(align)
    ensures var s' := Advance(s, n, size, align);
            && AlignOffset(s'.next, align) == AlignOffset(size, align)
            && TotSize(s.next, n + 1, size, align) == TotSize(s.next, n, size, align) + Stride(size, align)
            && BlkAddr(s'.next, 0, size, align) == BlkAddr(s.next, n, size, align)
  {
    hide Stride, AlignOffset;
    var s', stride := Advance(s, n, size, align), Stride(size, align);
    StrideIsSum(size, align);
    MulAdd(stride, n - 1, 1);
    BlkAddrAligned(s.next, n, size, align);
    AlignOffsetUnique(s'.next, align, AlignOffset(size, align));
  }

  lemma AdvanceOnce(s: Seg, n: int, size: int, align: int)
    requires n >= 1 && Arg(size) && Arg(align)
    ensures Advance(Advance(s, n, size, align), 1, size, align) == Advance(s, n + 1, size, align)
    ensures Fits(s, n, size, align) ==>
              (Fits(Advance(s, n, size, align), 1, size, align) <==> Fits(s, n + 1, size, align))
    ensures Fits(s, n + 1, size, align) ==> Fits(s, n, size, align)
  {
    NextBlock(s, n, size, align);
    StrideIsSum(size, align);
  }

  lemma AdvanceValid(s: Seg, n: int, size: int, align: int)
    requires s.Valid() && n >= 0 && Arg(size) && Arg(align)
    requires n > 0 ==> Fits(s, n, size, align)
    ensures Advance(s, n, size, align).Valid()
  {}

  /** The creation loop: addresses of the blocks obtained, stopping at the first refusal, and the segment left. */
  function AllocN(s: Seg, n: nat, size: int, align: int): (r: (seq<int>, Seg))
    requires Arg(size) && Arg(align)
    ensures |r.0| <= n
  {
    if n == 0 then ([], s)
    else
      var (blks, s1) := AllocN(s, n - 1, size, align);
      if |blks| < n - 1 then (blks, s1)
      else
        var (blk, s2) := SegAlloc(s1, size, align);
        (if blk == 0 then blks else blks + [blk], s2)
  }

  ghost predicate AtStrides(blks: seq<int>, s: Seg, size: int, align: int)
    requires Arg(size) && Arg(align)
  {
    forall i :: 0 <= i < |blks| ==> blks[i] == BlkAddr(s.next, i, size, align)
  }

  /**
   * blks are the first blocks of s, one stride apart, s' is s advanced by their total, and no further block of the n
   * fits.
   */
  ghost predicate FillsTo(s: Seg, n: nat, size: int, align: int, blks: seq<int>, s': Seg)
    requires Arg(size) && Arg(align)
  {
    && |blks| <= n
    && AtStrides(blks, s, size, align)
    && s' == Advance(s, |blks|, size, align)
    && s'.Valid()
    && (|blks| > 0 ==> Fits(s, |blks|, size, align))
    && (|blks| < n ==> !Fits(s, |blks| + 1, size, align))
  }

  /** One more turn of the loop, as the code takes it. */
  lemma FillStep(s: Seg, n: nat, size: int, align: int, blks: seq<int>, s1: Seg)
    requires s.Valid() && Arg(size) && Arg(align)
    requires FillsTo(s, n, size, align, blks, s1)
    ensures var (blk, s2) := SegAlloc(s1, size, align);
            if |blks| < n || blk == 0
            then FillsTo(s, n + 1, size, align, blks, s1) && (blk == 0 ==> s2 == s1)
            else FillsTo(s, n + 1, size, align, blks + [blk], s2)
  {
    SegAllocExact(s1, size, align);
    if |blks| == n {
      if n > 0 {
        AdvanceOnce(s, n, size, align);
        NextBlock(s, n, size, align);
      }
      if Fits(s, n + 1, size, align) {
        AdvanceValid(s, n + 1, size, align);
      }
    }
  }

  /**
   * The creation loop stops with as many blocks as fit. They are one stride apart, and the segment
   * has advanced by exactly their closed-form total.
   */
  lemma {:induction false} AllocNExact(s: Seg, n: nat, size: int, align: int)
    requires s.Valid() && Arg(size) && Arg(align)
    ensures var (blks, s') := AllocN(s, n, size, align); FillsTo(s, n, size, align, blks, s')
  {
    if n > 0 {
      hide SegAlloc, FillsTo;
      AllocNExact(s, n - 1, size, align);
      var (blks, s1) := AllocN(s, n - 1, size, align);
      FillStep(s, n - 1, size, align, blks, s1);
    }
  }

  lemma {:induction false} FitsFewer(s: Seg, k: nat, n: nat, size: int, align: int)
    requires Arg(size) && Arg(align) && 1 <= k <= n && Fits(s, n, size, align)
    ensures Fits(s, k, size, align)
    decreases n
  {
    if k < n {
      AdvanceOnce(s, n - 1, size, align);
      FitsFewer(s, k, n - 1, size, align);
    }
  }

  /** N single allocations all succeed if and only if the closed-form total fits the segment. */
  lemma AllocNSucceedsIff(s: Seg, n: nat, size: int, align: int)
    requires s.Valid() && Arg(size) && Arg(align) && n > 0
    ensures |AllocN(s, n, size, align).0| == n <==> Fits(s, n, size, align)
  {
    AllocNExact(s, n, size, align);
    var k := |AllocN(s, n, size, align).0|;
    if k < n && Fits(s, n, size, align) {
      FitsFewer(s, k + 1, n, size, align);
    }
  }
}
