/**
 * The memory pool table (lib_mem.c) as a value: the segments in ascending order of their base
 * address, and everything ever handed out of them. The linked form is in module MemPools.
 */
module MemTable {
  import opened Arith
  import opened LibErrors
  import opened SegArith
  import opened PoolBlks

  /** sizeof(void *) */
  const PTR_SIZE: int := 4

  /** blk_nbr * sizeof(void *) in a 32-bit register. */
  function PtrsLen(nbr: int): int { Wrap(nbr * PTR_SIZE) }

  /**
   * The size calculation sees no overflow in the pointer table; it does not notice that 2^30 + 2 pointers and more
   * wrap.
   */
  predicate PtrsOk(nbr: int) { nbr == 1 || PtrsLen(nbr) >= 2 * PTR_SIZE }

  lemma PtrsSize(addr: int, nbr: int)
    requires 0 <= addr < U32 && Arg(nbr)
    ensures CalcTotSize(addr, nbr, PTR_SIZE, PTR_SIZE)
            == var size := AlignOffset(addr, PTR_SIZE) + PtrsLen(nbr); if PtrsOk(nbr) && size < U32 then size else 0
  {
    assert Stride(PTR_SIZE, PTR_SIZE) == PTR_SIZE;
    if nbr == 1 {
      CalcTotSizeSingle(addr, PTR_SIZE, PTR_SIZE);
    } else {
      var product := PTR_SIZE * (nbr - 1);
      CalcTotSizeMany(addr, nbr, PTR_SIZE, PTR_SIZE, product);
      NextProduct(nbr - 1);
    }
  }

  lemma NextProduct(n: int)
    ensures var p := Wrap(PTR_SIZE * n);
            p <= U32 - PTR_SIZE && PtrsLen(n + 1) == if p == U32 - PTR_SIZE then 0 else p + PTR_SIZE
  {
    var q, p := PTR_SIZE * n / U32, Wrap(PTR_SIZE * n);
    DivMod(PTR_SIZE * n, U32);
    assert p == PTR_SIZE * (n - 0x4000_0000 * q);
    if p == U32 - PTR_SIZE { ModUnique(U32, q + 1, 0); } else { ModUnique(U32, q, p + PTR_SIZE); }
  }

  /** So many octets hold a pointer for each block if and only if there are fewer than 2^30. */
  lemma PtrsHoldIff(nbr: int)
    requires 1 <= nbr
    ensures PtrsLen(nbr) >= PTR_SIZE * nbr <==> nbr < 0x4000_0000
    ensures PtrsOk(0x4000_0002) && PtrsLen(0x4000_0002) == 2 * PTR_SIZE
  {
    if nbr < 0x4000_0000 { ModUnique(U32, 0, PTR_SIZE * nbr); }
    ModUnique(U32, 1, 2 * PTR_SIZE);
  }

  /** Memory handed out: a heap block, a table of block pointers, or a block of a pool. */
  datatype Region = Region(addr: int, len: int, align: int)

  datatype Table = Table(segs: seq<Seg>, heap: nat, regions: seq<Region>) {
    predicate Valid() {
      && heap < |segs|
      && forall i :: 0 <= i < |segs| ==> segs[i].Valid()
    }

    function Heap(): Seg
      requires heap < |segs|
    {
      segs[heap]
    }

    /** Segment i grows to s, and the regions rs are handed out. */
    function Grow(i: nat, s: Seg, rs: seq<Region>): Table
      requires i < |segs|
    {
      Table(segs[i := s], heap, regions + rs)
    }

    /** Segment s is linked in at position i. */
    function Insert(i: nat, s: Seg): Table
      requires i <= |segs|
    {
      Table(segs[..i] + [s] + segs[i..], if i <= heap then heap + 1 else heap, regions)
    }
  }

  // ----- Mem_HeapAlloc() -----

  /** What a call reports: the block (0 for NULL), *poctets_reqd and *perr. */
  datatype AllocRes = AllocRes(blk: int, octetsReqd: int, err: LibErr)

  function HeapAlloc(t: Table, size: int, align: int): (AllocRes, Table)
    requires t.Valid() && 0 <= size < U32 && 0 <= align < U32
  {
    if size < 1 then (AllocRes(0, 0, InvalidMemSize), t)
    else if align < 1 then (AllocRes(0, 0, InvalidMemAlign), t)
    else
      var sizeReq := CalcTotSize(t.Heap().next, 1, size, align);
      if sizeReq < 1 then (AllocRes(0, size, HeapOvf), t)
      else if sizeReq > t.Heap().rem then (AllocRes(0, sizeReq - t.Heap().rem, HeapEmpty), t)
      else
        var (blk, s) := SegAlloc(t.Heap(), size, align);
        if blk == 0 then (AllocRes(0, sizeReq, HeapEmpty), t)
        else (AllocRes(blk, 0, ErrNone), t.Grow(t.heap, s, [Region(blk, size, align)]))
  }

  // ----- Mem_PoolCreate(): the search of the table -----

  datatype Search = Found(ix: nat) | Overlap | NewAt(ix: nat)

  /** The code's three-way overlap test of [start, end] against segment s. */
  predicate OverlapTest(start: int, end: int, s: Seg) {
    var segStart, segEnd := s.base, s.base + s.tot - 1;
    || (start <= segStart && end >= segStart)
    || (start >= segStart && end <= segEnd)
    || (start <= segEnd && end >= segEnd)
  }

  /** The search loop from its i-th turn on. */
  function SearchFrom(segs: seq<Seg>, base: int, size: int, i: nat): (r: Search)
    requires i <= |segs|
    ensures r.Found? ==> i <= r.ix < |segs|
    ensures r.NewAt? ==> i <= r.ix <= |segs|
    decreases |segs| - i
  {
    if i == |segs| then NewAt(i)
    else if base == segs[i].base && size == segs[i].tot then Found(i)
    else if base + size - 1 < segs[i].base then NewAt(i)
    else if OverlapTest(base, base + size - 1, segs[i]) then Overlap
    else SearchFrom(segs, base, size, i + 1)
  }

  // ----- Mem_PoolCreate() -----

  datatype Args = Args(base: int, memSize: int, nbr: int, size: int, align: int) {
    /** 32-bit arguments. */
    predicate Words() {
      && 0 <= base < U32 && 0 <= memSize < U32
      && 0 <= nbr < U32 && 0 <= size < U32 && 0 <= align < U32
    }
  }

  /** *perr, *poctets_reqd and what a configured pool records. */
  datatype CreateRes = CreateRes(err: LibErr, octetsReqd: int, start: int, poolSize: int, ptrs: int, blks: seq<int>)

  function Refuse(err: LibErr, octetsReqd: int): CreateRes { CreateRes(err, octetsReqd, 0, 0, 0, []) }

  /**
   * Outcome of the validation: a refusal; or the table with the pool's segment in it, that segment's
   * index, the pool's range, and size_tot (left at 0 for dedicated memory).
   */
  datatype Check = Refused(res: CreateRes) | Passed(t: Table, ix: nat, start: int, poolSize: int, sizeTot: int)

  function CheckArgs(a: Args): LibErr
  {
    if a.base != 0 && a.memSize < 1 then InvalidSegSize
    else if a.nbr < 1 then InvalidBlkNbr
    else if a.size < 1 then InvalidBlkSize
    else if a.align < 1 then InvalidBlkAlign
    else ErrNone
  }

  /** Start and size of a pool whose blocks come from the heap, and its total with the pointer table; 0 on overflow. */
  function HeapSizes(next: int, a: Args): (r: (int, int, int))
    requires 0 <= next < U32 && a.Words() && CheckArgs(a) == ErrNone
    ensures r.2 >= 1 ==> PtrsOk(a.nbr)
  {
    PtrsSize(next, a.nbr);
    var sizePtrs := CalcTotSize(next, a.nbr, PTR_SIZE, PTR_SIZE);
    if sizePtrs < 1 then (0, 0, 0)
    else
      var start := Wrap(next + sizePtrs);
      var sizePool := CalcTotSize(start, a.nbr, a.size, a.align);
      if sizePool < 1 then (0, 0, 0)
      else
        var sizeTot := Wrap(sizePtrs + sizePool);
        if sizeTot < sizePtrs || sizeTot < sizePool then (0, 0, 0) else (start, sizePool, sizeTot)
  }

  /** Validation of a pool whose blocks come from the heap. */
  function CheckHeap(t: Table, a: Args): (r: Check)
    requires t.Valid() && a.Words() && CheckArgs(a) == ErrNone
    ensures r.Passed? ==> r.t == t && r.ix == t.heap && PtrsOk(a.nbr)
  {
    var (start, sizePool, sizeTot) := HeapSizes(t.Heap().next, a);
    if sizeTot < 1 then Refused(Refuse(HeapOvf, 0))
    else if sizeTot > t.Heap().rem then Refused(Refuse(HeapEmpty, sizeTot - t.Heap().rem))
    else Passed(t, t.heap, start, sizePool, sizeTot)
  }

  /** Sizes against the heap and against segment ix of a table that already has the pool's segment. */
  function CheckSizes(t: Table, ix: nat, a: Args): (r: Check)
    requires t.Valid() && ix < |t.segs| && a.Words() && CheckArgs(a) == ErrNone
    ensures r.Passed? ==> r.t == t && r.ix == ix && PtrsOk(a.nbr)
    ensures r.Refused? ==> r.res.err in {HeapOvf, HeapEmpty, SegOvf, SegEmpty}
  {
    PtrsSize(t.Heap().next, a.nbr);
    var sizePtrs := CalcTotSize(t.Heap().next, a.nbr, PTR_SIZE, PTR_SIZE);
    if sizePtrs < 1 then Refused(Refuse(HeapOvf, 0))
    else if sizePtrs > t.Heap().rem then Refused(Refuse(HeapEmpty, sizePtrs - t.Heap().rem))
    else
      var start := t.segs[ix].next;
      var sizePool := CalcTotSize(start, a.nbr, a.size, a.align);
      if sizePool < 1 then Refused(Refuse(SegOvf, 0))
      else if sizePool > t.segs[ix].rem then Refused(Refuse(SegEmpty, sizePool - t.segs[ix].rem))
      else Passed(t, ix, start, sizePool, 0)
  }

  function NewSeg(a: Args): Seg { Seg(a.base, a.base, a.memSize, a.memSize) }

  /** Validation of a pool in dedicated memory. */
  function CheckDedicated(t: Table, a: Args): (r: Check)
    requires t.Valid() && a.Words() && a.base != 0 && CheckArgs(a) == ErrNone
    ensures r.Passed? ==> PtrsOk(a.nbr) && r.t.Valid() && r.ix < |r.t.segs|
  {
    if Wrap(a.base + a.memSize - 1) < a.base then Refused(Refuse(InvalidBlkAddr, 0))
    else
      match SearchFrom(t.segs, a.base, a.memSize, 0)
      case Overlap => Refused(Refuse(InvalidSegOverlap, 0))
      case Found(i) => CheckSizes(t, i, a)
      case NewAt(i) =>
        assert forall j :: 0 <= j < |t.Insert(i, NewSeg(a)).segs| ==> t.Insert(i, NewSeg(a)).segs[j].Valid();
        CheckSizes(t.Insert(i, NewSeg(a)), i, a)
  }

  function CheckCreate(t: Table, a: Args): (r: Check)
    requires t.Valid() && a.Words()
    ensures r.Passed? ==> CheckArgs(a) == ErrNone && PtrsOk(a.nbr) && r.t.Valid() && r.ix < |r.t.segs|
  {
    if CheckArgs(a) != ErrNone then Refused(Refuse(CheckArgs(a), 0))
    else if a.base == 0 then CheckHeap(t, a)
    else CheckDedicated(t, a)
  }

  function BlkRegions(blks: seq<int>, size: int, align: int): seq<Region>
  {
    seq(|blks|, i requires 0 <= i < |blks| => Region(blks[i], size, align))
  }

  /** Octets still needed, as the failure branches behind the validation report them. */
  function Shortfall(need: int, rem: int): int { if need > rem then need - rem else need }

  /** The pool and its table after the allocations; a new segment is linked in only when they all succeed. */
  function Allocate(t: Table, c: Check, a: Args): (CreateRes, Table)
    requires t.Valid() && a.Words() && CheckArgs(a) == ErrNone && PtrsOk(a.nbr)
    requires c.Passed? && c.t.Valid() && c.ix < |c.t.segs|
  {
    var sizePtrs := PtrsLen(a.nbr);
    var (ptrs, heap) := SegAlloc(c.t.Heap(), sizePtrs, PTR_SIZE);
    if ptrs == 0 then
      (Refuse(HeapEmpty, Shortfall(if a.base == 0 then c.sizeTot else sizePtrs, c.t.Heap().rem)), t)
    else
      var t1 := c.t.Grow(c.t.heap, heap, [Region(ptrs, sizePtrs, PTR_SIZE)]);
      var (blks, s) := AllocN(t1.segs[c.ix], a.nbr, a.size, a.align);
      if |blks| < a.nbr then
        var need := CalcTotSize(Wrap(s.next), a.nbr - |blks|, a.size, a.align);
        (Refuse(SegEmpty, Shortfall(need, s.rem)), Strand(t, t1, c.ix, s))
      else
        (CreateRes(ErrNone, 0, c.start, c.poolSize, ptrs, blks), t1.Grow(c.ix, s, BlkRegions(blks, a.size, a.align)))
  }

  /**
   * After a failure in the middle, memory taken from segments of the old table stays taken, though nobody was given
   * it.
   */
  function Strand(t: Table, t1: Table, ix: nat, s: Seg): Table
    requires ix < |t1.segs| && t1.heap < |t1.segs|
  {
    if |t1.segs| == |t.segs| then Table(t1.segs[ix := s], t1.heap, t.regions)
    else if t.heap < |t.segs| then Table(t.segs[t.heap := t1.segs[t1.heap]], t.heap, t.regions)
    else t
  }

  function Create(t: Table, a: Args): (CreateRes, Table)
    requires t.Valid() && a.Words()
  {
    hide CheckCreate, Allocate, PtrsOk, CheckArgs;
    var c := CheckCreate(t, a);
    if c.Refused? then (c.res, t) else Allocate(t, c, a)
  }
}
