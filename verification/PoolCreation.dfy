/**
 * Exactly when Mem_HeapAlloc() and Mem_PoolCreate() (lib_mem.c) succeed, and what they leave
 * behind and report when they do not.
 */
module PoolCreation {
  import opened Arith
  import opened LibErrors
  import opened SegArith
  import opened PoolBlks
  import opened MemTable
  import opened MemTableProps
  import opened PoolStack

  /** The heap once the table of block pointers is taken from it. */
  function HeapAfterPtrs(heap: Seg, nbr: int): Seg
    requires PtrsOk(nbr)
  {
    Advance(heap, 1, PtrsLen(nbr), PTR_SIZE)
  }

  predicate PtrsFit(heap: Seg, nbr: int)
    requires PtrsOk(nbr)
  {
    Fits(heap, 1, PtrsLen(nbr), PTR_SIZE)
  }

  /** The pointer table's size by the closed form for its pointers, and as one allocation. */
  lemma PtrsSizeIsOne(addr: int, nbr: int)
    requires 0 <= addr < U32 && Arg(nbr) && PtrsOk(nbr)
    ensures var size := TotSize(addr, 1, PtrsLen(nbr), PTR_SIZE);
            CalcTotSize(addr, nbr, PTR_SIZE, PTR_SIZE) == if size < U32 then size else 0
  {
    PtrsSize(addr, nbr);
    assert Stride(PtrsLen(nbr), PTR_SIZE) * 0 == 0;
  }

  /** The sizes of a heap-backed pool without intermediate registers. */
  lemma HeapSizesExact(next: int, a: Args)
    requires 0 <= next < U32 && a.Words() && CheckArgs(a) == ErrNone && PtrsOk(a.nbr)
    ensures var n := TotSize(next, 1, PtrsLen(a.nbr), PTR_SIZE);
            var start := Wrap(next + n);
            var pool := CalcTotSize(start, a.nbr, a.size, a.align);
            HeapSizes(next, a) == if n < U32 && pool >= 1 && n + pool < U32 then (start, pool, n + pool) else (0, 0, 0)
  {
    hide CalcTotSize, TotSize;
    PtrsSizeIsOne(next, a.nbr);
    var n := TotSize(next, 1, PtrsLen(a.nbr), PTR_SIZE);
    if n < U32 { SumWraps(n, CalcTotSize(Wrap(next + n), a.nbr, a.size, a.align)); }
  }

  /** A closed form that fits is never wrong. */
  lemma FittingSizeIsExact(addr: int, n: int, size: int, align: int)
    requires 0 <= addr < U32 && Arg(n) && Arg(size) && Arg(align)
    requires TotSize(addr, n, size, align) < U32
    ensures CalcTotSize(addr, n, size, align) == TotSize(addr, n, size, align) >= 1
  {
    CalcTotSizeCorrectIff(addr, n, size, align);
    var stride := Stride(size, align);
    MulMonotonic(stride, 0, n - 1);
  }

  // ----- Mem_HeapAlloc() -----

  /**
   * A heap allocation succeeds exactly when the aligned block fits; it then gets that block, and otherwise nothing
   * changes.
   */
  lemma HeapAllocOutcome(t: Table, size: int, align: int)
    requires Inv(t) && 0 <= size < U32 && 0 <= align < U32
    ensures var (res, t') := HeapAlloc(t, size, align);
            && (res.err == ErrNone <==> size >= 1 && align >= 1 && Fits(t.Heap(), 1, size, align))
            && (res.err == ErrNone ==>
                  && res.blk == t.Heap().next + AlignOffset(t.Heap().next, align)
                  && res.octetsReqd == 0
                  && t'.Heap().next == res.blk + size
                  && t'.regions == t.regions + [Region(res.blk, size, align)])
            && (res.err != ErrNone ==> t' == t && res.blk == 0)
  {
    if size >= 1 && align >= 1 {
      var heap := t.Heap();
      SegAllocExact(heap, size, align);
      CalcTotSizeSingle(heap.next, size, align);
      assert Stride(size, align) * 0 == 0;
    }
  }

  /** The heap with d more octets left at its end. */
  function MoreHeap(t: Table, d: int): Table
    requires t.heap < |t.segs|
  {
    var h := t.Heap();
    Table([Seg(h.base, h.next, h.rem + d, h.tot + d)], 0, [])
  }

  /**
   * *poctets_reqd of an exhausted heap is the exact shortfall: with that many more octets the call
   * succeeds, unless the block would end at the very top of the address space; with any fewer it is refused again,
   * for the rest of the shortfall.
   */
  lemma HeapAllocShortfall(t: Table, size: int, align: int, d: int)
    requires Inv(t) && 0 <= size < U32 && 0 <= align < U32
    requires HeapAlloc(t, size, align).0.err == HeapEmpty && t.Heap().rem < CalcTotSize(t.Heap().next, 1, size, align)
    requires 0 <= d && t.Heap().End() + d <= U32
    ensures var reqd := HeapAlloc(t, size, align).0.octetsReqd;
            && reqd > 0
            && MoreHeap(t, d).Valid()
            && HeapAlloc(MoreHeap(t, d), size, align).0.err
               == (if d >= reqd && t.Heap().End() + reqd < U32 then ErrNone else HeapEmpty)
            && (d < reqd ==> HeapAlloc(MoreHeap(t, d), size, align).0.octetsReqd == reqd - d)
  {
    var t2 := MoreHeap(t, d);
    SegAllocExact(t2.Heap(), size, align);
    CalcTotSizeSingle(t.Heap().next, size, align);
    assert Stride(size, align) * 0 == 0;
  }

  // ----- Mem_PoolCreate() -----

  /** Where the blocks of an admissible request go: the table with their segment in it, and its index. */
  datatype Placement = Nowhere | In(t: Table, ix: nat)

  function Place(t: Table, a: Args): (p: Placement)
    requires t.Valid()
    ensures p.In? ==> p.ix < |p.t.segs| && p.t.heap < |p.t.segs|
  {
    if a.base == 0 then In(t, t.heap)
    else if a.base + a.memSize > U32 then Nowhere
    else
      match SearchFrom(t.segs, a.base, a.memSize, 0)
      case Overlap => Nowhere
      case Found(i) => In(t, i)
      case NewAt(i) => In(t.Insert(i, NewSeg(a)), i)
  }

  /** The blocks' segment at the time the blocks are taken: after the pointer table. */
  function BlksSeg(p: Placement, a: Args): Seg
    requires p.In? && p.ix < |p.t.segs| && p.t.heap < |p.t.segs| && PtrsOk(a.nbr)
  {
    if p.ix == p.t.heap then HeapAfterPtrs(p.t.Heap(), a.nbr) else p.t.segs[p.ix]
  }

  /** What a request needs, in unbounded arithmetic. */
  predicate Admissible(t: Table, a: Args)
    requires t.Valid() && a.Words()
  {
    var p := Place(t, a);
    && CheckArgs(a) == ErrNone
    && p.In?
    && PtrsOk(a.nbr)
    && PtrsFit(p.t.Heap(), a.nbr)
    && Fits(BlksSeg(p, a), a.nbr, a.size, a.align)
  }

  lemma PassedIsPlaced(t: Table, a: Args)
    requires Inv(t) && a.Words() && CheckArgs(a) == ErrNone
    ensures var p := Place(t, a);
            && (CheckCreate(t, a).Passed? ==> p.In? && CheckCreate(t, a).t == p.t && CheckCreate(t, a).ix == p.ix)
            && (p.In? ==> p.t.Valid() && p.t.Heap() == t.Heap())
            && (p.In? && a.base != 0 ==> CheckCreate(t, a) == CheckSizes(p.t, p.ix, a))
  {
    hide SearchFrom, CheckSizes, CalcTotSize, AllPlaced, PairwiseApart;
    if a.base != 0 {
      SumWraps(a.base, a.memSize - 1);
      var r := SearchFrom(t.segs, a.base, a.memSize, 0);
      if r.NewAt? && a.base + a.memSize <= U32 {
        SearchCorrect(t.segs, a.base, a.memSize);
        InsertKeeps(t, r.ix, NewSeg(a));
      }
    }
  }

  /** From a later address the same blocks never need more than the octets skipped plus their total from there. */
  lemma LaterTotSize(addr: int, d: int, n: int, size: int, align: int)
    requires 0 <= d && n >= 1 && Arg(size) && Arg(align)
    ensures TotSize(addr, n, size, align) <= d + TotSize(addr + d, n, size, align)
  {
    var o, o' := AlignOffset(addr, align), AlignOffset(addr + d, align);
    if o > d + o' {
      ModCongruent(align, addr + o, addr + d + o');
      ModUnique(align, 0, o - (d + o'));
    }
  }

  /** The validation of a heap-backed pool never refuses what would fit. */
  lemma AdmissibleHeapPasses(t: Table, a: Args)
    requires Inv(t) && a.Words() && a.base == 0 && Admissible(t, a)
    ensures CheckHeap(t, a).Passed?
  {
    hide CalcTotSize, TotSize, HeapSizes;
    var heap, s := t.Heap(), HeapAfterPtrs(t.Heap(), a.nbr);
    assert heap.Valid();
    HeapSizesExact(heap.next, a);
    FittingSizeIsExact(s.next, a.nbr, a.size, a.align);
  }

  /** Nor does the validation of a pool in dedicated memory, even when that memory is the heap's own. */
  lemma AdmissibleSizesPass(t: Table, ix: nat, a: Args)
    requires t.Valid() && ix < |t.segs| && a.Words() && CheckArgs(a) == ErrNone
    requires PtrsOk(a.nbr) && PtrsFit(t.Heap(), a.nbr) && Fits(BlksSeg(In(t, ix), a), a.nbr, a.size, a.align)
    ensures CheckSizes(t, ix, a).Passed?
  {
    hide CalcTotSize;
    var heap, s := t.Heap(), t.segs[ix];
    assert heap.Valid() && s.Valid();
    PtrsSizeIsOne(heap.next, a.nbr);
    if ix == t.heap {
      LaterTotSize(heap.next, TotSize(heap.next, 1, PtrsLen(a.nbr), PTR_SIZE), a.nbr, a.size, a.align);
    }
    hide TotSize;
    FittingSizeIsExact(s.next, a.nbr, a.size, a.align);
  }

  lemma AdmissiblePasses(t: Table, a: Args)
    requires Inv(t) && a.Words() && Admissible(t, a)
    ensures CheckCreate(t, a).Passed?
  {
    hide CheckHeap, CheckSizes, Fits;
    PassedIsPlaced(t, a);
    if a.base == 0 { AdmissibleHeapPasses(t, a); }
    else { AdmissibleSizesPass(Place(t, a).t, Place(t, a).ix, a); }
  }

  /** Behind the validation, when the pointer table fits: the allocations, one after the other. */
  lemma AllocateUnfolds(t: Table, a: Args)
    requires Inv(t) && a.Words() && CheckCreate(t, a).Passed? && CheckArgs(a) == ErrNone
    requires PtrsFit(t.Heap(), a.nbr)
    ensures Place(t, a).In? && Place(t, a).t.Valid() && Place(t, a).t.Heap() == t.Heap()
    ensures var c, p := CheckCreate(t, a), Place(t, a);
            var sizePtrs := PtrsLen(a.nbr);
            var ptrs := BlkAddr(t.Heap().next, 0, sizePtrs, PTR_SIZE);
            var t1 := p.t.Grow(p.t.heap, HeapAfterPtrs(t.Heap(), a.nbr), [Region(ptrs, sizePtrs, PTR_SIZE)]);
            var (blks, s) := AllocN(BlksSeg(p, a), a.nbr, a.size, a.align);
            var (res, t') := Create(t, a);
            if |blks| < a.nbr then res.err == SegEmpty && t' == Strand(t, t1, p.ix, s)
            else res == CreateRes(ErrNone, 0, c.start, c.poolSize, ptrs, blks)
                 && t' == t1.Grow(p.ix, s, BlkRegions(blks, a.size, a.align))
  {
    hide AllocN, CalcTotSize, CheckCreate, Place, TotSize;
    PassedKeeps(t, a);
    PassedIsPlaced(t, a);
    SegAllocExact(t.Heap(), PtrsLen(a.nbr), PTR_SIZE);
  }

  /** The segment that the blocks come from is in order. */
  lemma BlksSegValid(t: Table, a: Args)
    requires Inv(t) && a.Words() && CheckArgs(a) == ErrNone && PtrsOk(a.nbr) && PtrsFit(t.Heap(), a.nbr)
    requires Place(t, a).In?
    ensures BlksSeg(Place(t, a), a).Valid()
    ensures Place(t, a).t.Valid() && Place(t, a).t.Heap() == t.Heap()
    ensures BlksSeg(Place(t, a), a).End() == Place(t, a).t.segs[Place(t, a).ix].End()
  {
    hide TotSize;
    PassedIsPlaced(t, a);
    AdvanceValid(t.Heap(), 1, PtrsLen(a.nbr), PTR_SIZE);
    assert Place(t, a).t.segs[Place(t, a).ix].Valid();
  }

  /** What decides behind the validation is whether the pointer table, and then the blocks, fit. */
  lemma AllocateOutcome(t: Table, a: Args)
    requires Inv(t) && a.Words() && CheckCreate(t, a).Passed?
    ensures CheckArgs(a) == ErrNone
    ensures var (res, t') := Create(t, a);
            && (res.err == ErrNone <==> Admissible(t, a))
            && (!PtrsFit(t.Heap(), a.nbr) ==> res.err == HeapEmpty && t' == t)
            && (PtrsFit(t.Heap(), a.nbr) && res.err != ErrNone ==> res.err == SegEmpty && t'.segs != t.segs)
  {
    hide Create, CheckCreate, Place, AllocN, TotSize, CalcTotSize, Fits;
    PassedIsPlaced(t, a);
    if PtrsFit(t.Heap(), a.nbr) {
      AllocateUnfolds(t, a);
      BlksSegValid(t, a);
      AllocNSucceedsIff(BlksSeg(Place(t, a), a), a.nbr, a.size, a.align);
      if Create(t, a).0.err != ErrNone { StrandedChanges(t, a); }
    } else {
      PtrsAreRefused(t, a);
    }
  }

  lemma PtrsAreRefused(t: Table, a: Args)
    requires Inv(t) && a.Words() && CheckCreate(t, a).Passed? && !PtrsFit(t.Heap(), a.nbr)
    ensures Create(t, a).0.err == HeapEmpty && Create(t, a).1 == t
  {
    hide CheckCreate, TotSize, CalcTotSize, Fits, AllocN;
    PassedKeeps(t, a);
    SegAllocExact(t.Heap(), PtrsLen(a.nbr), PTR_SIZE);
  }

  /** After a failure among the blocks the heap has moved: it has lost the pointer table at least. */
  lemma StrandedChanges(t: Table, a: Args)
    requires Inv(t) && a.Words() && CheckCreate(t, a).Passed? && CheckArgs(a) == ErrNone
    requires PtrsFit(t.Heap(), a.nbr) && Create(t, a).0.err != ErrNone
    ensures t.heap < |Create(t, a).1.segs| && Create(t, a).1.segs[t.heap].next > t.Heap().next
  {
    hide AllocN, Create, CheckCreate, Place;
    PassedKeeps(t, a);
    PassedIsPlaced(t, a);
    AllocateUnfolds(t, a);
    var s := BlksSeg(Place(t, a), a);
    AdvanceValid(t.Heap(), 1, PtrsLen(a.nbr), PTR_SIZE);
    AllocNExact(s, a.nbr, a.size, a.align);
  }

  lemma CreatedIffAdmissible(t: Table, a: Args)
    requires Inv(t) && a.Words()
    ensures Create(t, a).0.err == ErrNone <==> Admissible(t, a)
  {
    if Admissible(t, a) { AdmissiblePasses(t, a); }
    if CheckCreate(t, a).Passed? {
      AllocateOutcome(t, a);
    } else {
      RefusalIsError(t, a);
    }
  }

  /**
   * A pool is created if and only if each argument is at least 1 that has to be, and the pointer table and the blocks
   * fit where they belong.
   */
  lemma CreateSucceedsIff(t: Table, a: Args)
    requires Inv(t) && a.Words()
    ensures Create(t, a).0.err == ErrNone <==>
            && 1 <= a.nbr && 1 <= a.size && 1 <= a.align && (a.base == 0 || 1 <= a.memSize)
            && Place(t, a).In? && PtrsOk(a.nbr) && PtrsFit(Place(t, a).t.Heap(), a.nbr)
            && Fits(BlksSeg(Place(t, a), a), a.nbr, a.size, a.align)
  {
    hide Create, Place, PtrsOk, PtrsFit, Fits, BlksSeg;
    CreatedIffAdmissible(t, a);
  }

  lemma RefusalIsError(t: Table, a: Args)
    requires t.Valid() && a.Words() && CheckCreate(t, a).Refused?
    ensures Create(t, a).0.err != ErrNone && Create(t, a).1 == t
  {}

  /** What a created pool gets: its blocks one stride apart, its pointer table, and nobody else's memory. */
  lemma CreateGives(t: Table, a: Args)
    requires Inv(t) && a.Words() && Create(t, a).0.err == ErrNone
    ensures CheckArgs(a) == ErrNone && Place(t, a).In? && PtrsOk(a.nbr)
    ensures var (res, t') := Create(t, a);
            && res.ptrs == BlkAddr(t.Heap().next, 0, PtrsLen(a.nbr), PTR_SIZE)
            && |res.blks| == a.nbr
            && AtStrides(res.blks, BlksSeg(Place(t, a), a), a.size, a.align)
            && t'.regions == t.regions + [Region(res.ptrs, PtrsLen(a.nbr), PTR_SIZE)]
                             + BlkRegions(res.blks, a.size, a.align)
  {
    hide AllocN, CheckCreate, Place, Create;
    CreatedIffAdmissible(t, a);
    if CheckCreate(t, a).Refused? { RefusalIsError(t, a); }
    PassedKeeps(t, a);
    PassedIsPlaced(t, a);
    AllocateUnfolds(t, a);
    var s := BlksSeg(Place(t, a), a);
    AdvanceValid(t.Heap(), 1, PtrsLen(a.nbr), PTR_SIZE);
    AllocNExact(s, a.nbr, a.size, a.align);
  }

  /** The segment from which validation computes the pool's size is the one the blocks then come from. */
  predicate OwnSegment(t: Table, a: Args)
    requires t.Valid()
  {
    a.base == 0 || (Place(t, a).In? && Place(t, a).ix != Place(t, a).t.heap)
  }

  /** The pointer table would end at the very top of the address space. */
  predicate PtrsAtTop(heap: Seg, nbr: int)
    requires PtrsOk(nbr)
  {
    heap.next + TotSize(heap.next, 1, PtrsLen(nbr), PTR_SIZE) == U32
  }

  /**
   * What validation overlooks about the blocks: a product's overflow, an end at the very top of the address space, and,
   * when the heap itself was passed as dedicated memory, the room that the pointer table takes from them.
   */
  predicate BlksMissed(t: Table, a: Args)
    requires t.Valid() && Arg(a.nbr) && Arg(a.size) && Arg(a.align) && PtrsOk(a.nbr) && Place(t, a).In?
  {
    var s := BlksSeg(Place(t, a), a);
    || MulOvfMissed(s.next, a.nbr, a.size, a.align)
    || s.next + TotSize(s.next, a.nbr, a.size, a.align) == U32
    || (!OwnSegment(t, a) && TotSize(s.next, a.nbr, a.size, a.align) > s.rem)
  }

  /** What a validation that passes has established of the pointer table. */
  lemma PassedPtrs(t: Table, a: Args)
    requires Inv(t) && a.Words() && CheckCreate(t, a).Passed?
    ensures PtrsFit(t.Heap(), a.nbr) <==> !PtrsAtTop(t.Heap(), a.nbr)
    ensures a.base == 0 || t.Heap().End() < U32 ==> PtrsFit(t.Heap(), a.nbr)
  {
    hide CalcTotSize, TotSize, HeapSizes, PtrsOk;
    var heap := t.Heap();
    assert heap.Valid();
    PtrsSizeIsOne(heap.next, a.nbr);
    if a.base == 0 { HeapSizesExact(heap.next, a); } else { PassedIsPlaced(t, a); }
  }

  /** And of the blocks, where it looks at the segment they come from. */
  lemma PassedSizes(t: Table, a: Args)
    requires Inv(t) && a.Words() && CheckCreate(t, a).Passed? && OwnSegment(t, a)
    requires PtrsFit(t.Heap(), a.nbr) && Place(t, a).In?
    ensures var s := BlksSeg(Place(t, a), a);
            && CheckCreate(t, a).start == s.next < U32
            && CheckCreate(t, a).poolSize == CalcTotSize(s.next, a.nbr, a.size, a.align)
            && 1 <= CheckCreate(t, a).poolSize <= s.rem
  {
    hide CalcTotSize, TotSize, HeapSizes, CheckDedicated, Sorted, AllPlaced, PairwiseApart;
    PassedIsPlaced(t, a);
    if a.base == 0 {
      assert t.Heap().Valid();
      HeapSizesExact(t.Heap().next, a);
    } else {
      assert Place(t, a).t.segs[Place(t, a).ix].Valid();
    }
  }

  /** Once the validation passes and the pointer table fits, the blocks fit unless it overlooks something. */
  lemma PassedFitsIff(t: Table, a: Args)
    requires Inv(t) && a.Words() && CheckCreate(t, a).Passed? && PtrsFit(t.Heap(), a.nbr)
    ensures Place(t, a).In?
    ensures Fits(BlksSeg(Place(t, a), a), a.nbr, a.size, a.align) <==> !BlksMissed(t, a)
    ensures OwnSegment(t, a) && Place(t, a).t.segs[Place(t, a).ix].End() < U32 ==>
              (BlksMissed(t, a) <==> MulOvfMissed(BlksSeg(Place(t, a), a).next, a.nbr, a.size, a.align))
  {
    hide CheckCreate, Place, CalcTotSize, MulOvfMissed, TotSize, OwnSegment, BlksSeg;
    PassedIsPlaced(t, a);
    BlksSegValid(t, a);
    var s := BlksSeg(Place(t, a), a);
    CalcTotSizeCorrectIff(s.next, a.nbr, a.size, a.align);
    MissedIsLarge(s.next, a.nbr, a.size, a.align);
    if OwnSegment(t, a) { PassedSizes(t, a); }
  }

  lemma MissedIsLarge(addr: int, n: int, size: int, align: int)
    requires Arg(n) && Arg(size) && Arg(align)
    ensures MulOvfMissed(addr, n, size, align) ==> TotSize(addr, n, size, align) >= U32
  {}

  /**
   * After the validation the failure branches of the allocations are dead code, except in the cases that it overlooks.
   * For segments that end below the top of the address space, and unless the heap itself is passed as
   * dedicated memory, that is a missed overflow only.
   */
  lemma ValidationSuffices(t: Table, a: Args)
    requires Inv(t) && a.Words() && CheckCreate(t, a).Passed?
    ensures Place(t, a).In? && Place(t, a).ix < |Place(t, a).t.segs|
    ensures Create(t, a).0.err == ErrNone <==> !PtrsAtTop(t.Heap(), a.nbr) && !BlksMissed(t, a)
    ensures OwnSegment(t, a) && t.Heap().End() < U32 && Place(t, a).t.segs[Place(t, a).ix].End() < U32 ==>
              (Create(t, a).0.err == ErrNone
               <==> !MulOvfMissed(BlksSeg(Place(t, a), a).next, a.nbr, a.size, a.align))
  {
    hide CheckCreate, Create, Place, MulOvfMissed, BlksMissed, TotSize, OwnSegment, PtrsAtTop, PtrsFit;
    PassedIsPlaced(t, a);
    PassedPtrs(t, a);
    CreatedIffAdmissible(t, a);
    if PtrsFit(t.Heap(), a.nbr) { PassedFitsIff(t, a); }
  }

  /**
   * A refused creation changes segments in one case only, told by the arguments: the validation passes, the pointer
   * table fits, and the validation overlooks that the blocks do not. It never hands anything out.
   */
  lemma CreateAtomicIff(t: Table, a: Args)
    requires Inv(t) && a.Words()
    ensures var (res, t') := Create(t, a);
            && (res.err != ErrNone && t'.segs != t.segs <==>
                CheckCreate(t, a).Passed? && !PtrsAtTop(t.Heap(), a.nbr) && Place(t, a).In? && BlksMissed(t, a))
            && (res.err != ErrNone ==> t'.regions == t.regions)
    ensures OwnSegment(t, a) && t.Heap().End() < U32
            && Place(t, a).In? && Place(t, a).t.segs[Place(t, a).ix].End() < U32 ==>
              (Create(t, a).0.err != ErrNone && Create(t, a).1.segs != t.segs <==>
               CheckCreate(t, a).Passed? && MulOvfMissed(BlksSeg(Place(t, a), a).next, a.nbr, a.size, a.align))
  {
    hide AllocN, CheckCreate, Place, CalcTotSize, Create, MulOvfMissed, BlksMissed, TotSize, OwnSegment, PtrsAtTop,
         PtrsFit;
    if CheckCreate(t, a).Passed? {
      PassedIsPlaced(t, a);
      ValidationSuffices(t, a);
      AllocateOutcome(t, a);
      PassedPtrs(t, a);
      FailedHandsOutNothing(t, a);
    } else {
      RefusalIsError(t, a);
    }
  }

  lemma FailedHandsOutNothing(t: Table, a: Args)
    requires Inv(t) && a.Words() && CheckCreate(t, a).Passed?
    ensures Create(t, a).0.err != ErrNone ==> Create(t, a).1.regions == t.regions
  {
    hide AllocN, CheckCreate, Place, CalcTotSize;
    AllocateOutcome(t, a);
    if PtrsFit(t.Heap(), a.nbr) { AllocateUnfolds(t, a); }
  }

  /**
   * The range that a created pool records, PoolAddrStart to PoolAddrEnd, is the range its blocks
   * occupy, except when the heap itself was passed as dedicated memory.
   */
  lemma PoolRangeIff(t: Table, a: Args)
    requires Inv(t) && a.Words() && Create(t, a).0.err == ErrNone
    ensures CheckArgs(a) == ErrNone && Place(t, a).In? && PtrsOk(a.nbr)
    ensures var res, s := Create(t, a).0, BlksSeg(Place(t, a), a);
            && (res.start == s.next <==> OwnSegment(t, a))
            && (OwnSegment(t, a) ==> InSpace(res.start, a.nbr, a.size, a.align)
                                     && res.poolSize == TotSize(res.start, a.nbr, a.size, a.align))
  {
    hide Create, CalcTotSize, AllocN;
    CreatedIffAdmissible(t, a);
    AdmissiblePasses(t, a);
    PassedIsPlaced(t, a);
    AllocateUnfolds(t, a);
    PassedStart(t, a);
    var p := Place(t, a);
    var s := BlksSeg(p, a);
    AdvanceValid(t.Heap(), 1, PtrsLen(a.nbr), PTR_SIZE);
    assert p.t.segs[p.ix].Valid();
    FittingSizeIsExact(s.next, a.nbr, a.size, a.align);
  }

  /**
   * 49153 blocks of 128 KiB from a heap of 2.5 GiB: the validation passes, and the refusal that follows has used up
   * the heap.
   */
  lemma StrandingExample()
    ensures var t, a := Init(0x1000_0000, 0xA000_0000), Args(0, 0, 49153, 0x2_0000, 4);
            Inv(t) && Create(t, a).0.err == SegEmpty && Create(t, a).1.segs != t.segs
  {
    hide Create, CheckHeap, Inv;
    var t, a := Init(0x1000_0000, 0xA000_0000), Args(0, 0, 49153, 0x2_0000, 4);
    InitInv(0x1000_0000, 0xA000_0000);
    StrandingPasses();
    CreateAtomicIff(t, a);
    AllocateOutcome(t, a);
  }

  lemma StrandingPasses()
    ensures var t, a := Init(0x1000_0000, 0xA000_0000), Args(0, 0, 49153, 0x2_0000, 4);
            && t.Valid() && CheckArgs(a) == ErrNone && CheckHeap(t, a).Passed?
            && HeapAfterPtrs(t.Heap(), 49153).next == 0x1003_0004
            && MulOvfMissed(0x1003_0004, 49153, 0x2_0000, 4)
  {
    hide CalcTotSize, TotSize, AlignOffset, Stride;
    var t := Init(0x1000_0000, 0xA000_0000);
    assert t.segs[0].Valid();
    WordsLeaveNoGaps(0x400_0000, 0xC001, 1);
    HeapSizesExact(0x1000_0000, Args(0, 0, 49153, 0x2_0000, 4));
    WordsLeaveNoGaps(0x400_C001, 0x8000, 49153);
    CalcTotSizeMany(0x1003_0004, 49153, 0x2_0000, 4, 0x1_8000_0000);
  }

  /** Blocks of whole words from a word's address on follow one another without gaps. */
  lemma WordsLeaveNoGaps(addr: int, words: int, n: int)
    requires 1 <= words && 4 * words < U32 && n >= 1
    ensures AlignOffset(4 * addr, 4) == 0 && Stride(4 * words, 4) == 4 * words
    ensures TotSize(4 * addr, n, 4 * words, 4) == 4 * words * n
  {
    ModUnique(4, addr, 0);
    AlignOffsetUnique(4 * addr, 4, 0);
    ModUnique(4, words, 0);
    AlignOffsetUnique(4 * words, 4, 0);
    StrideIsSum(4 * words, 4);
    MulSub(4 * words, n, 1);
  }

  lemma InitInv(base: int, size: int)
    requires 1 <= base && 1 <= size && base + size <= U32
    ensures Inv(Init(base, size))
  {
    assert Init(base, size).segs[0].Valid();
  }

  /**
   * Two blocks of 16 octets from the heap, passed as dedicated memory: the range recorded starts with the pointer
   * table.
   */
  lemma WrongRangeExample()
    ensures var t, a := Init(0x1000_0000, 0x1_0000), Args(0x1000_0000, 0x1_0000, 2, 16, 4);
            && Inv(t) && Create(t, a).0.err == ErrNone
            && Create(t, a).0.start != 0x1000_0008 && Create(t, a).0.ptrs == 0x1000_0000
            && Create(t, a).0.blks == [0x1000_0008, 0x1000_0018]
  {
    hide Create, CheckCreate, Inv, Admissible, Place, AtStrides, OwnSegment, BlksSeg, BlkAddr, PtrsLen, InSpace,
         TotSize;
    var t, a := Init(0x1000_0000, 0x1_0000), Args(0x1000_0000, 0x1_0000, 2, 16, 4);
    InitInv(0x1000_0000, 0x1_0000);
    WrongRangeAdmissible();
    WrongRangeFacts();
    CreatedIffAdmissible(t, a);
    PoolRangeIff(t, a);
    CreateGives(t, a);
    TwoStrides(Create(t, a).0.blks);
  }

  lemma TwoStrides(blks: seq<int>)
    requires |blks| == 2 && AtStrides(blks, Seg(0x1000_0000, 0x1000_0008, 0xFFF8, 0x1_0000), 16, 4)
    ensures blks == [0x1000_0008, 0x1000_0018]
  {
    hide AlignOffset, Stride;
    WordsLeaveNoGaps(0x400_0002, 4, 2);
    assert blks[0] == BlkAddr(0x1000_0008, 0, 16, 4) && blks[1] == BlkAddr(0x1000_0008, 1, 16, 4);
  }

  lemma WrongRangeAdmissible()
    ensures var t, a := Init(0x1000_0000, 0x1_0000), Args(0x1000_0000, 0x1_0000, 2, 16, 4);
            && t.Valid() && Place(t, a) == In(t, 0) && Admissible(t, a) && !OwnSegment(t, a)
  {
    hide TotSize, AlignOffset, Stride;
    var t := Init(0x1000_0000, 0x1_0000);
    assert t.segs[0].Valid();
    WordsLeaveNoGaps(0x400_0000, 2, 1);
    WordsLeaveNoGaps(0x400_0002, 4, 2);
    assert HeapAfterPtrs(t.Heap(), 2).next == 0x1000_0008;
  }

  lemma WrongRangeFacts()
    ensures var t, a := Init(0x1000_0000, 0x1_0000), Args(0x1000_0000, 0x1_0000, 2, 16, 4);
            && PtrsLen(2) == 8 && BlkAddr(0x1000_0000, 0, 8, 4) == 0x1000_0000
            && BlksSeg(In(t, 0), a) == Seg(0x1000_0000, 0x1000_0008, 0xFFF8, 0x1_0000)
  {
    hide TotSize, AlignOffset, Stride;
    WordsLeaveNoGaps(0x400_0000, 2, 1);
  }

  /** The pointer table that a created pool gets has room for its blocks if and only if there are fewer than 2^30. */
  lemma PtrsHoldBlksIff(t: Table, a: Args)
    requires Inv(t) && a.Words() && Create(t, a).0.err == ErrNone
    ensures var (res, t') := Create(t, a);
            && |t.regions| < |t'.regions| && t'.regions[|t.regions|].addr == res.ptrs
            && (t'.regions[|t.regions|].len >= PTR_SIZE * |res.blks| <==> a.nbr < 0x4000_0000)
  {
    hide Create, PtrsLen;
    CreateGives(t, a);
    PtrsHoldIff(a.nbr);
  }

  /** A pool of 2^30 + 2 blocks of one octet is created, with a pointer table of 8 octets. */
  lemma ShortPtrsExample()
    ensures var t, a := Init(0x1000_0000, 0xA000_0000), Args(0, 0, 0x4000_0002, 1, 1);
            && Inv(t) && Create(t, a).0.err == ErrNone
            && |Create(t, a).0.blks| == 0x4000_0002
            && Create(t, a).1.regions == [Region(0x1000_0000, 8, PTR_SIZE)] + BlkRegions(Create(t, a).0.blks, 1, 1)
  {
    hide Create, Inv, Admissible, AtStrides, BlkAddr, BlkRegions;
    var t, a := Init(0x1000_0000, 0xA000_0000), Args(0, 0, 0x4000_0002, 1, 1);
    InitInv(0x1000_0000, 0xA000_0000);
    ShortPtrsAdmissible();
    CreatedIffAdmissible(t, a);
    CreateGives(t, a);
    PtrsHoldIff(1);
  }

  lemma ShortPtrsAdmissible()
    ensures var t, a := Init(0x1000_0000, 0xA000_0000), Args(0, 0, 0x4000_0002, 1, 1);
            t.Valid() && Admissible(t, a) && BlkAddr(0x1000_0000, 0, 8, PTR_SIZE) == 0x1000_0000
  {
    hide TotSize, AlignOffset, Stride, PtrsLen;
    var t := Init(0x1000_0000, 0xA000_0000);
    assert t.segs[0].Valid();
    PtrsHoldIff(1);
    WordsLeaveNoGaps(0x400_0000, 2, 1);
    OctetsLeaveNoGaps(0x1000_0008, 0x4000_0002);
  }

  lemma OctetsLeaveNoGaps(addr: int, n: int)
    requires n >= 1
    ensures AlignOffset(addr, 1) == 0 && Stride(1, 1) == 1 && TotSize(addr, n, 1, 1) == n
  {}

  /** The range computed by a validation that passes. */
  lemma PassedStart(t: Table, a: Args)
    requires Inv(t) && a.Words() && CheckCreate(t, a).Passed? && CheckArgs(a) == ErrNone && PtrsFit(t.Heap(), a.nbr)
    requires Place(t, a).In?
    ensures var c, p := CheckCreate(t, a), Place(t, a);
            && c.start == (if a.base == 0 then HeapAfterPtrs(t.Heap(), a.nbr).next else p.t.segs[p.ix].next)
            && 0 <= c.start < U32
            && c.poolSize == CalcTotSize(c.start, a.nbr, a.size, a.align)
  {
    hide CalcTotSize, TotSize, HeapSizes, CheckDedicated;
    PassedIsPlaced(t, a);
    assert t.Heap().Valid() && Place(t, a).t.segs[Place(t, a).ix].Valid();
    if a.base == 0 { HeapSizesExact(t.Heap().next, a); }
  }

  /**
   * *poctets_reqd of a heap-backed creation that is refused for lack of heap is the exact
   * shortfall: that many more octets make the creation succeed and one fewer does not -- provided
   * the size calculation missed no overflow and the blocks do not end at the very top of the address space; otherwise
   * no number of octets would do.
   */
  lemma CreateShortfall(t: Table, a: Args, d: int)
    requires Inv(t) && a.Words() && a.base == 0 && Create(t, a).0.err == HeapEmpty
    requires 0 <= d && t.Heap().End() + d <= U32
    ensures CheckArgs(a) == ErrNone && PtrsOk(a.nbr)
    ensures var reqd := Create(t, a).0.octetsReqd;
            && reqd > 0
            && Inv(MoreHeap(t, d))
            && (Create(MoreHeap(t, d), a).0.err == ErrNone
                <==> && d >= reqd && t.Heap().End() + reqd < U32
                     && !MulOvfMissed(HeapAfterPtrs(t.Heap(), a.nbr).next, a.nbr, a.size, a.align))
            && (d < reqd ==> Create(MoreHeap(t, d), a).0.err == HeapEmpty
                             && Create(MoreHeap(t, d), a).0.octetsReqd == reqd - d)
  {
    hide CheckHeap, Allocate, MulOvfMissed, HeapAfterPtrs, Inv;
    MoreHeapInv(t, d);
    HeapEmptyIsRefused(t, a);
    RefusedShortfall(t, a, d);
    AfterPtrsNext(t, d, a.nbr);
    if d >= Create(t, a).0.octetsReqd { EnoughHeap(MoreHeap(t, d), a); }
  }

  lemma MoreHeapInv(t: Table, d: int)
    requires Inv(t) && 0 <= d && t.Heap().End() + d <= U32
    ensures Inv(MoreHeap(t, d))
    ensures t.Valid() && MoreHeap(t, d).Heap().next == t.Heap().next
  {
    assert t.Heap().Valid();
  }

  lemma AfterPtrsNext(t: Table, d: int, nbr: int)
    requires t.heap < |t.segs| && PtrsOk(nbr)
    ensures HeapAfterPtrs(MoreHeap(t, d).Heap(), nbr).next == HeapAfterPtrs(t.Heap(), nbr).next
  {}

  /** A heap-backed creation finds the heap exhausted in the validation already. */
  lemma HeapEmptyIsRefused(t: Table, a: Args)
    requires Inv(t) && a.Words() && a.base == 0 && Create(t, a).0.err == HeapEmpty
    ensures CheckArgs(a) == ErrNone && CheckHeap(t, a) == Refused(Create(t, a).0)
  {
    hide CheckHeap, Allocate;
    if CheckCreate(t, a).Passed? {
      PassedPtrs(t, a);
      AllocateOutcome(t, a);
    }
  }

  /** Once the heap is large enough, what may still be in the way. */
  lemma EnoughHeap(t: Table, a: Args)
    requires Inv(t) && a.Words() && a.base == 0 && CheckCreate(t, a).Passed?
    ensures Create(t, a).0.err == ErrNone
            <==> t.Heap().next + CheckCreate(t, a).sizeTot < U32
                 && !MulOvfMissed(HeapAfterPtrs(t.Heap(), a.nbr).next, a.nbr, a.size, a.align)
  {
    hide CheckHeap, Create, MulOvfMissed, HeapAfterPtrs, TotSize, CalcTotSize;
    ValidationSuffices(t, a);
    PassedPtrs(t, a);
    var s := HeapAfterPtrs(t.Heap(), a.nbr);
    PassedTot(t, a);
    CalcTotSizeCorrectIff(s.next, a.nbr, a.size, a.align);
    MissedIsLarge(s.next, a.nbr, a.size, a.align);
  }

  /** The total that a heap-backed creation is validated with. */
  lemma PassedTot(t: Table, a: Args)
    requires Inv(t) && a.Words() && a.base == 0 && CheckCreate(t, a).Passed?
    ensures var s := HeapAfterPtrs(t.Heap(), a.nbr);
            && 0 <= s.next < U32 && CalcTotSize(s.next, a.nbr, a.size, a.align) >= 1
            && t.Heap().next + CheckCreate(t, a).sizeTot == s.next + CalcTotSize(s.next, a.nbr, a.size, a.align) <= U32
  {
    hide CalcTotSize, TotSize, HeapSizes;
    assert t.Heap().Valid();
    HeapSizesExact(t.Heap().next, a);
    PassedPtrs(t, a);
  }

  lemma RefusedShortfall(t: Table, a: Args, d: int)
    requires t.Valid() && a.Words() && a.base == 0 && CheckArgs(a) == ErrNone
    requires CheckHeap(t, a).Refused? && CheckHeap(t, a).res.err == HeapEmpty
    requires 0 <= d && t.Heap().End() + d <= U32
    ensures PtrsOk(a.nbr)
    ensures var reqd, t2 := CheckHeap(t, a).res.octetsReqd, MoreHeap(t, d);
            && reqd > 0
            && t2.Valid()
            && (if d >= reqd
                then CheckHeap(t2, a).Passed? && CheckHeap(t2, a).sizeTot == t.Heap().rem + reqd
                else CheckHeap(t2, a) == Refused(Refuse(HeapEmpty, reqd - d)))
  {
    hide HeapSizes, PtrsOk;
    assert t.Heap().Valid();
  }

  /** The pool fields set at the end of Mem_PoolCreate(). */
  function Configured(res: CreateRes, a: Args): Pool
  {
    Pool(res.start, res.start + res.poolSize - 1, a.size, a.align, a.nbr, res.blks, a.nbr % IX_RANGE)
  }

  /** Whatever the request, a created pool is well-formed. */
  lemma ConfiguredWellFormed(t: Table, a: Args)
    requires Inv(t) && a.Words() && Create(t, a).0.err == ErrNone
    ensures Configured(Create(t, a).0, a).WellFormed() && a.nbr >= 1
  {
    hide Create, CheckCreate, Place, BlksSeg, TotSize, Stride, AlignOffset, AtStrides, Sorted, AllPlaced, PairwiseApart;
    CreatedIffAdmissible(t, a);
    CreateGives(t, a);
    PassedIsPlaced(t, a);
    BlksSegValid(t, a);
    StrideInSpace(BlksSeg(Place(t, a), a).next, a.nbr, a.size, a.align);
  }

  /** A created pool is the pool whose runs PoolStack is about, unless the heap was passed as dedicated memory. */
  lemma CreatedPool(t: Table, a: Args)
    requires Inv(t) && a.Words() && Create(t, a).0.err == ErrNone && OwnSegment(t, a)
    ensures CheckArgs(a) == ErrNone
    ensures var res := Create(t, a).0;
            && InSpace(res.start, a.nbr, a.size, a.align)
            && Configured(res, a) == Created(res.start, a.nbr, a.size, a.align)
  {
    PoolRangeIff(t, a);
    CreateGives(t, a);
    hide Create, Place, TotSize, Stride, AlignOffset, OwnSegment;
    var res := Create(t, a).0;
    assert res.blks == Created(res.start, a.nbr, a.size, a.align).ptrs;
  }

  /** What a successful call of a run gives out is among the regions from then on. */
  lemma StepHandsOut(t: Table, op: MemTableProps.Op)
    requires Inv(t) && op.Words()
    ensures match op
            case HeapOp(size, align) =>
              var res := HeapAlloc(t, size, align).0;
              res.err == ErrNone ==> MemTableProps.Step(t, op).regions == t.regions + [Region(res.blk, size, align)]
            case PoolOp(a) =>
              var res := Create(t, a).0;
              res.err == ErrNone ==>
                && |res.blks| == a.nbr
                && MemTableProps.Step(t, op).regions
                   == t.regions + [Region(res.ptrs, PtrsLen(a.nbr), PTR_SIZE)]
                      + seq(a.nbr, i requires 0 <= i < a.nbr => Region(res.blks[i], a.size, a.align))
  {
    hide HeapAlloc, Create;
    match op
    case HeapOp(size, align) => HeapAllocOutcome(t, size, align);
    case PoolOp(a) => if Create(t, a).0.err == ErrNone { CreateGives(t, a); }
  }
}
