/**
 * What Mem_HeapAlloc() and Mem_PoolCreate() (lib_mem.c) report when they refuse: each error by the arguments and the
 * state of the segments that bring it about, with the octets reported; and the memory that a late refusal has used up.
 */
module PoolRefusals {
  import opened Arith
  import opened LibErrors
  import opened SegArith
  import opened PoolBlks
  import opened MemTable
  import opened MemTableProps
  import opened PoolCreation

  // ----- Mem_HeapAlloc() -----

  /** The errors of a heap allocation, in the order of the tests. */
  lemma HeapAllocErrors(t: Table, size: int, align: int)
    requires Inv(t) && 0 <= size < U32 && 0 <= align < U32
    ensures var res := HeapAlloc(t, size, align).0;
            && (res.err == InvalidMemSize <==> size == 0)
            && (res.err == InvalidMemAlign <==> size >= 1 && align == 0)
            && (size == 0 || align == 0 ==> res.octetsReqd == 0)
    ensures size >= 1 && align >= 1 ==>
              var res, heap := HeapAlloc(t, size, align).0, t.Heap();
              var total := AlignOffset(heap.next, align) + size;
              && res.err in {ErrNone, HeapOvf, HeapEmpty}
              && (res.err == HeapOvf <==> total >= U32)
              && (res.err == HeapOvf ==> res.octetsReqd == size)
              && (res.err == HeapEmpty <==> total < U32 && (total > heap.rem || heap.next + total == U32))
              && (res.err == HeapEmpty ==> res.octetsReqd == if total > heap.rem then total - heap.rem else total)
  {
    if size >= 1 && align >= 1 {
      assert t.Heap().Valid();
      SegAllocExact(t.Heap(), size, align);
      CalcTotSizeSingle(t.Heap().next, size, align);
      SingleTotal(t.Heap().next, size, align);
    }
  }

  lemma SingleTotal(addr: int, size: int, align: int)
    requires Arg(size) && Arg(align)
    ensures TotSize(addr, 1, size, align) == AlignOffset(addr, align) + size
  {
    assert Stride(size, align) * 0 == 0;
  }

  // ----- Mem_PoolCreate(), the arguments -----

  /** Every argument is at least 1 that has to be. */
  predicate InRange(a: Args) { 1 <= a.nbr && 1 <= a.size && 1 <= a.align && (a.base == 0 || 1 <= a.memSize) }

  /** The errors of the arguments, in the order of the tests; and of the place of dedicated memory. */
  lemma CreateArgErrors(t: Table, a: Args)
    requires Inv(t) && a.Words()
    ensures var res := Create(t, a).0;
            && (res.err == InvalidSegSize <==> a.base != 0 && a.memSize == 0)
            && (res.err == InvalidBlkNbr <==> !(a.base != 0 && a.memSize == 0) && a.nbr == 0)
            && (res.err == InvalidBlkSize <==> !(a.base != 0 && a.memSize == 0) && a.nbr >= 1 && a.size == 0)
            && (res.err == InvalidBlkAlign <==>
                  !(a.base != 0 && a.memSize == 0) && a.nbr >= 1 && a.size >= 1 && a.align == 0)
            && (res.err == InvalidBlkAddr <==> InRange(a) && a.base != 0 && a.base + a.memSize > U32)
            && (res.err == InvalidSegOverlap <==>
                  && InRange(a) && a.base != 0 && a.base + a.memSize <= U32
                  && (exists i :: 0 <= i < |t.segs| && Overlaps(t.segs[i], a.base, a.memSize))
                  && (forall i :: 0 <= i < |t.segs| ==> !(t.segs[i].base == a.base && t.segs[i].tot == a.memSize)))
            && (res.err in {InvalidSegSize, InvalidBlkNbr, InvalidBlkSize, InvalidBlkAlign, InvalidBlkAddr,
                            InvalidSegOverlap}
                || res.err in {ErrNone, HeapOvf, HeapEmpty, SegOvf, SegEmpty})
            && (res.err !in {HeapEmpty, SegEmpty} ==> res.octetsReqd == 0)
  {
    hide HeapSizes, CalcTotSize, SegAlloc, AllocN, SearchFrom, Sorted, AllPlaced, PairwiseApart, PtrsOk, CheckSizes,
         Allocate;
    if InRange(a) {
      CreateSizeErrors(t, a);
      if a.base != 0 {
        SumWraps(a.base, a.memSize - 1);
        SearchCorrect(t.segs, a.base, a.memSize);
      }
    }
  }

  /** Once arguments and place are accepted, only sizes can be wrong. */
  lemma CreateSizeErrors(t: Table, a: Args)
    requires Inv(t) && a.Words() && InRange(a)
    ensures var c, res := CheckCreate(t, a), Create(t, a).0;
            && ((c.Refused? && c.res.err in {InvalidBlkAddr, InvalidSegOverlap})
                || res.err in {ErrNone, HeapOvf, HeapEmpty, SegOvf, SegEmpty})
            && (res.err !in {HeapEmpty, SegEmpty} ==> res.octetsReqd == 0)
            && (c.Refused? ==> res == c.res)
            && (c.Passed? ==> res.err in {ErrNone, HeapEmpty, SegEmpty})
  {
    hide HeapSizes, CalcTotSize, SegAlloc, AllocN, SearchFrom, PtrsOk, BlkRegions, Strand;
  }

  // ----- Mem_PoolCreate(), the sizes -----

  /** A pool from the heap: what its pointer table and its blocks need decides, and the shortfall is the difference. */
  lemma HeapPoolErrors(t: Table, a: Args)
    requires Inv(t) && a.Words() && InRange(a) && a.base == 0
    ensures var res, heap := Create(t, a).0, t.Heap();
            var ptrs := AlignOffset(heap.next, PTR_SIZE) + PtrsLen(a.nbr);
            var pool := CalcTotSize(Wrap(heap.next + ptrs), a.nbr, a.size, a.align);
            var ovf := !PtrsOk(a.nbr) || ptrs >= U32 || pool == 0 || ptrs + pool >= U32;
            && (res.err == HeapOvf <==> ovf)
            && (res.err == HeapEmpty <==> !ovf && ptrs + pool > heap.rem)
            && (res.err == HeapEmpty ==> res.octetsReqd == ptrs + pool - heap.rem)
            && (res.err == SegEmpty <==> !ovf && ptrs + pool <= heap.rem && BlksMissed(t, a))
            && res.err != SegOvf
  {
    hide CalcTotSize, Allocate, HeapSizes, BlksMissed, PtrsOk, PtrsLen, TotSize, Inv;
    InvValid(t);
    HeapRefusal(t, a);
    if CheckHeap(t, a).Passed? {
      ValidationSuffices(t, a);
      AllocateOutcome(t, a);
      PassedPtrs(t, a);
    }
  }

  lemma InvValid(t: Table)
    requires Inv(t)
    ensures t.Valid() && t.Heap().Valid()
  {}

  lemma HeapRefusal(t: Table, a: Args)
    requires t.Valid() && a.Words() && InRange(a) && a.base == 0
    ensures CheckArgs(a) == ErrNone
    ensures var heap := t.Heap();
            var ptrs := AlignOffset(heap.next, PTR_SIZE) + PtrsLen(a.nbr);
            var pool := CalcTotSize(Wrap(heap.next + ptrs), a.nbr, a.size, a.align);
            var ovf := !PtrsOk(a.nbr) || ptrs >= U32 || pool == 0 || ptrs + pool >= U32;
            if ovf then CheckHeap(t, a) == Refused(Refuse(HeapOvf, 0))
            else if ptrs + pool > heap.rem then CheckHeap(t, a) == Refused(Refuse(HeapEmpty, ptrs + pool - heap.rem))
            else CheckHeap(t, a).Passed?
  {
    hide CalcTotSize;
    PtrsSize(t.Heap().next, a.nbr);
    if PtrsOk(a.nbr) {
      SingleTotal(t.Heap().next, PtrsLen(a.nbr), PTR_SIZE);
      HeapSizesExact(t.Heap().next, a);
    }
  }

  /** A pool in dedicated memory: the pointer table against the heap, then the blocks against their own segment. */
  lemma DedicatedPoolErrors(t: Table, a: Args)
    requires Inv(t) && a.Words() && InRange(a) && a.base != 0 && Place(t, a).In?
    ensures var res, heap, seg := Create(t, a).0, t.Heap(), Place(t, a).t.segs[Place(t, a).ix];
            var ptrs := AlignOffset(heap.next, PTR_SIZE) + PtrsLen(a.nbr);
            && 0 <= seg.next < U32
            && var pool := CalcTotSize(seg.next, a.nbr, a.size, a.align);
            var ovf := !PtrsOk(a.nbr) || ptrs >= U32;
            && (res.err == HeapOvf <==> ovf)
            && (res.err == HeapEmpty <==>
                  !ovf && (ptrs > heap.rem || (1 <= pool <= seg.rem && heap.next + ptrs == U32)))
            && (res.err == HeapEmpty ==>
                  res.octetsReqd == if ptrs > heap.rem then ptrs - heap.rem
                                    else if PtrsLen(a.nbr) > heap.rem then PtrsLen(a.nbr) - heap.rem
                                    else PtrsLen(a.nbr))
            && (res.err == SegOvf <==> !ovf && ptrs <= heap.rem && pool == 0)
            && (res.err == SegEmpty <==>
                  && !ovf && ptrs <= heap.rem
                  && (pool > seg.rem || (1 <= pool && heap.next + ptrs < U32 && BlksMissed(t, a))))
            && (pool > seg.rem && res.err == SegEmpty ==> res.octetsReqd == pool - seg.rem)
  {
    hide CalcTotSize, Allocate, BlksMissed, PtrsOk, PtrsLen, TotSize, Inv, Place, CheckSizes;
    InvValid(t);
    PlacedIsIn(t, a);
    DedicatedRefusal(t, a);
    if CheckCreate(t, a).Passed? {
      ValidationSuffices(t, a);
      AllocateOutcome(t, a);
      PassedPtrs(t, a);
      if !PtrsFit(t.Heap(), a.nbr) { PtrsReport(t, a); }
      PtrsTop(t, a);
    } else {
      RefusalIsError(t, a);
    }
  }

  lemma PlacedIsIn(t: Table, a: Args)
    requires Inv(t) && a.Words() && InRange(a) && a.base != 0 && Place(t, a).In?
    ensures CheckArgs(a) == ErrNone
    ensures var p := Place(t, a);
            && p.t.Valid() && p.t.Heap() == t.Heap() && p.t.segs[p.ix].Valid()
            && CheckCreate(t, a) == CheckSizes(p.t, p.ix, a)
  {
    PassedIsPlaced(t, a);
  }

  lemma DedicatedRefusal(t: Table, a: Args)
    requires Inv(t) && a.Words() && InRange(a) && a.base != 0 && Place(t, a).In?
    ensures var c, heap, seg := CheckCreate(t, a), t.Heap(), Place(t, a).t.segs[Place(t, a).ix];
            var ptrs := AlignOffset(heap.next, PTR_SIZE) + PtrsLen(a.nbr);
            && 0 <= seg.next < U32
            && var pool := CalcTotSize(seg.next, a.nbr, a.size, a.align);
            if !PtrsOk(a.nbr) || ptrs >= U32 then c == Refused(Refuse(HeapOvf, 0))
            else if ptrs > heap.rem then c == Refused(Refuse(HeapEmpty, ptrs - heap.rem))
            else if pool == 0 then c == Refused(Refuse(SegOvf, 0))
            else if pool > seg.rem then c == Refused(Refuse(SegEmpty, pool - seg.rem))
            else c.Passed?
  {
    hide CalcTotSize, PtrsOk, PtrsLen, Place, Inv, CheckCreate;
    InvValid(t);
    PlacedIsIn(t, a);
    PtrsSize(t.Heap().next, a.nbr);
    PtrsAtLeastOne(a.nbr);
  }

  lemma PtrsAtLeastOne(nbr: int)
    ensures PtrsOk(nbr) ==> PTR_SIZE <= PtrsLen(nbr) < U32
  {}

  lemma PtrsTop(t: Table, a: Args)
    requires t.Valid() && a.Words() && PtrsOk(a.nbr)
    ensures PtrsAtTop(t.Heap(), a.nbr)
            <==> t.Heap().next + AlignOffset(t.Heap().next, PTR_SIZE) + PtrsLen(a.nbr) == U32
  {
    SingleTotal(t.Heap().next, PtrsLen(a.nbr), PTR_SIZE);
  }

  /** The octets reported when the pointer table is refused behind the validation. */
  lemma PtrsReport(t: Table, a: Args)
    requires Inv(t) && a.Words() && a.base != 0 && CheckCreate(t, a).Passed? && !PtrsFit(t.Heap(), a.nbr)
    ensures Create(t, a).0.octetsReqd
            == if PtrsLen(a.nbr) > t.Heap().rem then PtrsLen(a.nbr) - t.Heap().rem else PtrsLen(a.nbr)
  {
    hide CheckCreate, TotSize, CalcTotSize, Fits, AllocN;
    PassedKeeps(t, a);
    SegAllocExact(t.Heap(), PtrsLen(a.nbr), PTR_SIZE);
  }

  // ----- what a late refusal has used up -----

  /**
   * A creation that fails among its blocks has used up the pointer table and as many blocks as fit; new dedicated
   * memory is given up again. It reports what the blocks missing would need.
   */
  lemma StrandedExactly(t: Table, a: Args) returns (k: nat)
    requires Inv(t) && a.Words() && CheckCreate(t, a).Passed? && PtrsFit(t.Heap(), a.nbr)
    requires Create(t, a).0.err != ErrNone
    ensures Place(t, a).In? && k < a.nbr && Arg(a.size) && Arg(a.align)
    ensures var s := BlksSeg(Place(t, a), a);
            && (k > 0 ==> Fits(s, k, a.size, a.align)) && !Fits(s, k + 1, a.size, a.align)
    ensures var s := Advance(BlksSeg(Place(t, a), a), k, a.size, a.align);
            var (res, t') := Create(t, a);
            && 0 <= s.next < U32
            && var need := CalcTotSize(s.next, a.nbr - k, a.size, a.align);
            && res.octetsReqd == (if need > s.rem then need - s.rem else need)
            && t'.heap == t.heap
            && t'.segs == if |Place(t, a).t.segs| > |t.segs| then t.segs[t.heap := HeapAfterPtrs(t.Heap(), a.nbr)]
                          else t.segs[t.heap := HeapAfterPtrs(t.Heap(), a.nbr)][Place(t, a).ix := s]
  {
    hide AllocN, Create, CheckCreate, CalcTotSize, TotSize, Fits, Advance, Inv;
    InvValid(t);
    PassedIsPlaced(t, a);
    AllocateUnfolds(t, a);
    AllocateReports(t, a);
    BlksSegValid(t, a);
    var s := BlksSeg(Place(t, a), a);
    AllocNExact(s, a.nbr, a.size, a.align);
    k := |AllocN(s, a.nbr, a.size, a.align).0|;
  }

  lemma AllocateReports(t: Table, a: Args)
    requires Inv(t) && a.Words() && CheckCreate(t, a).Passed? && PtrsFit(t.Heap(), a.nbr)
    ensures Place(t, a).In?
    ensures var (blks, s) := AllocN(BlksSeg(Place(t, a), a), a.nbr, a.size, a.align);
            |blks| < a.nbr ==>
              var need := CalcTotSize(Wrap(s.next), a.nbr - |blks|, a.size, a.align);
              Create(t, a).0.octetsReqd == if need > s.rem then need - s.rem else need
  {
    hide AllocN, CalcTotSize, CheckCreate, Place, TotSize, Strand, BlkRegions, PtrsOk, PtrsLen, Stride, AlignOffset;
    PtrsAtLeastOne(a.nbr);
    PassedKeeps(t, a);
    PassedIsPlaced(t, a);
    SegAllocExact(t.Heap(), PtrsLen(a.nbr), PTR_SIZE);
  }
}
