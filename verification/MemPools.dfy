/**
 * The memory pool structures of lib_mem.c as the code keeps them: MEM_POOL records updated in place
 * and linked, segment heads horizontally and pools of one segment vertically. Each operation
 * is shown to do to the table what its value-level counterpart says.
 */
module MemPools {
  import opened Arith
  import opened LibErrors
  import opened SegArith
  import opened PoolBlks
  import opened PoolStack
  import opened MemTable
  import opened MemTableProps
  import opened PoolCreation

  datatype PoolType = TypeNone | TypeHeap | TypePool

  const NO_POOL := Pool(0, 0, 0, 0, 0, [], 0)
  const NO_SEG := Seg(0, 0, 0, 0)

  /** struct mem_pool; its pool fields and its segment fields are two records. */
  class MemPool {
    var poolType: PoolType
    var segPrev: MemPool?
    var segNext: MemPool?
    var poolPrev: MemPool?
    var poolNext: MemPool?
    var pool: Pool       // PoolAddrStart, PoolAddrEnd, PoolPtrs[], BlkIx, BlkNbr, BlkSize, BlkAlign
    var ptrsAddr: int    // PoolPtrs
    var poolSize: int
    var seg: Seg         // SegAddr, SegAddrNextAvail, SegSizeRem, SegSizeTot

    ghost var owner: MemPool?       // head of the segment whose pools this one is among
    ghost var chain: seq<MemPool>   // for a segment head: the pools of the segment, in link order

    constructor ()
      ensures poolType == TypeNone
      ensures segPrev == null && segNext == null && poolPrev == null && poolNext == null
    {
      poolType := TypeNone;
      segPrev, segNext, poolPrev, poolNext := null, null, null, null;
      pool, ptrsAddr, poolSize, seg := NO_POOL, 0, 0, NO_SEG;
    }

    /** Mem_PoolClr(). */
    method Clear()
      modifies this
      ensures poolType == TypeNone
      ensures segPrev == null && segNext == null && poolPrev == null && poolNext == null
      ensures pool == NO_POOL && ptrsAddr == 0 && poolSize == 0 && seg == NO_SEG
    {
      poolType := TypeNone;
      segPrev, segNext, poolPrev, poolNext := null, null, null, null;
      pool, ptrsAddr, poolSize := NO_POOL, 0, 0;
      seg := NO_SEG;
    }

    /** End of Mem_PoolCreate(). */
    method Configure(a: Args, start: int, size: int, ptrs: int, blks: seq<int>)
      modifies this`poolType, this`pool, this`ptrsAddr, this`poolSize
      ensures poolType == TypePool && ptrsAddr == ptrs && poolSize == size
      ensures pool == Pool(start, start + size - 1, a.size, a.align, a.nbr, blks, a.nbr % IX_RANGE)
    {
      poolType := TypePool;
      pool := Pool(start, start + size - 1, a.size, a.align, a.nbr, blks, a.nbr % IX_RANGE);
      poolSize := size;
      ptrsAddr := ptrs;
    }

    /** Mem_PoolSegAlloc(). */
    method AllocSeg(size: int, align: int) returns (blk: int)
      requires Arg(size) && Arg(align)
      modifies this`seg
      ensures (blk, seg) == SegAlloc(old(seg), size, align)
    {
      var addr := seg.next;
      var alignOffset := AlignOffset(addr, align);
      var sizeTot := Wrap(alignOffset + size);
      if sizeTot > seg.rem { return 0; }
      if sizeTot < alignOffset || sizeTot < size { return 0; }
      var addrNext := Wrap(addr + sizeTot);
      if addrNext < addr { return 0; }
      seg := seg.(next := addrNext, rem := seg.rem - sizeTot);
      return addr + alignOffset;
    }

    /** The allocation loop of Mem_PoolCreate(): block addresses are stored until one is refused. */
    method AllocBlks(nbr: nat, size: int, align: int) returns (blks: seq<int>)
      requires Arg(size) && Arg(align)
      modifies this`seg
      ensures (blks, seg) == AllocN(old(seg), nbr, size, align)
    {
      blks := [];
      var i := 0;
      while i < nbr
        invariant 0 <= i <= nbr && |blks| == i
        invariant (blks, seg) == AllocN(old(seg), i, size, align)
      {
        var blk := AllocSeg(size, align);
        if blk == 0 {
          RefusalStops(old(seg), i, nbr, size, align);
          return;
        }
        blks := blks + [blk];
        i := i + 1;
      }
    }
  }

  /** Mem_PoolBlkGet(). */
  method BlkGet(p: MemPool?, size: int) returns (blk: int, err: LibErr)
    requires p != null && p.poolType == TypePool ==> p.pool.WellFormed()
    modifies (if p == null then {} else {p})`pool
    ensures if p == null then (blk, err) == (0, NullPtr)
            else if size < 1 then (blk, err, p.pool) == (0, InvalidBlkSize, old(p.pool))
            else if p.poolType != TypePool then (blk, err, p.pool) == (0, InvalidPool, old(p.pool))
            else (blk, err, p.pool) == old(p.pool).Get(size)
  {
    if p == null { return 0, NullPtr; }
    if size < 1 { return 0, InvalidBlkSize; }
    if p.poolType != TypePool { return 0, InvalidPool; }
    if size > p.pool.size { return 0, InvalidBlkSize; }
    if p.pool.ix < 1 { return 0, PoolEmpty; }
    if p.pool.ix > p.pool.nbr { return 0, InvalidBlkIx; }
    p.pool := p.pool.(ix := p.pool.ix - 1);
    return p.pool.ptrs[p.pool.ix], ErrNone;
  }

  /** Mem_PoolBlkFree(). */
  method BlkFree(p: MemPool?, blk: int) returns (err: LibErr)
    requires p != null && p.poolType == TypePool ==> p.pool.WellFormed()
    modifies (if p == null then {} else {p})`pool
    ensures if p == null then err == NullPtr
            else if blk == 0 then (err, p.pool) == (NullPtr, old(p.pool))
            else if p.poolType != TypePool then (err, p.pool) == (InvalidPool, old(p.pool))
            else (err, p.pool) == old(p.pool).Put(blk)
  {
    if p == null { return NullPtr; }
    if blk == 0 { return NullPtr; }
    if p.poolType != TypePool { return InvalidPool; }
    if !IsValidAddr(p.pool.start, p.pool.end, p.pool.size, p.pool.align, blk) { return InvalidBlkAddr; }
    var i := 0;
    while i < p.pool.ix
      invariant 0 <= i <= p.pool.ix
      invariant blk !in p.pool.ptrs[..i]
    {
      if blk == p.pool.ptrs[i] {
        assert p.pool.Free()[i] == blk;
        return InvalidBlkAddrInPool;
      }
      i := i + 1;
    }
    if p.pool.ix >= p.pool.nbr { return PoolFull; }
    p.pool := p.pool.(ptrs := p.pool.ptrs[p.pool.ix := blk]);
    p.pool := p.pool.(ix := NextIx(p.pool.ix));
    return ErrNone;
  }

  ghost function Segments(heads: seq<MemPool>): (values: seq<Seg>)
    reads heads`seg
    ensures |values| == |heads| && forall i :: 0 <= i < |heads| ==> values[i] == heads[i].seg
  {
    if heads == [] then [] else Segments(heads[..|heads| - 1]) + [heads[|heads| - 1].seg]
  }

  /** When one head's segment changes, so does one entry of the table. */
  lemma SegmentsUpdated(heads: seq<MemPool>, i: nat, before: seq<Seg>)
    requires i < |heads| == |before|
    requires forall j :: 0 <= j < |heads| && j != i ==> before[j] == heads[j].seg
    ensures Segments(heads) == before[i := heads[i].seg]
  {}

  lemma {:induction false} SegmentsInsert(heads: seq<MemPool>, i: nat, p: MemPool)
    requires i <= |heads|
    ensures Segments(heads[..i] + [p] + heads[i..]) == Segments(heads)[..i] + [p.seg] + Segments(heads)[i..]
  {}

  /** heads are linked into a list, horizontally. */
  ghost predicate SegList(heads: seq<MemPool>)
    reads heads`segPrev, heads`segNext
  {
    && (forall i, j :: 0 <= i < j < |heads| ==> heads[i] != heads[j])
    && (|heads| > 0 ==> heads[0].segPrev == null && heads[|heads| - 1].segNext == null)
    && (forall i {:trigger heads[i].segPrev} :: 1 <= i < |heads| ==> heads[i].segPrev == heads[i - 1])
    && (forall i {:trigger heads[i].segNext} :: 0 <= i < |heads| - 1 ==> heads[i].segNext == heads[i + 1])
  }

  /** pools are linked into a list, vertically. */
  ghost predicate PoolList(pools: seq<MemPool>)
    reads pools`poolPrev, pools`poolNext
  {
    && (forall i, j :: 0 <= i < j < |pools| ==> pools[i] != pools[j])
    && (|pools| > 0 ==> pools[0].poolPrev == null && pools[|pools| - 1].poolNext == null)
    && (forall i {:trigger pools[i].poolPrev} :: 1 <= i < |pools| ==> pools[i].poolPrev == pools[i - 1])
    && (forall i {:trigger pools[i].poolNext} :: 0 <= i < |pools| - 1 ==> pools[i].poolNext == pools[i + 1])
  }

  /** s heads the list of its segment's pools, all of them linked and none of them in another list. */
  ghost predicate Heads(s: MemPool, linked: set<MemPool>)
    reads s`chain, linked`owner, linked`poolPrev, linked`poolNext
  {
    && |s.chain| > 0 && s.chain[0] == s
    && (forall k :: 0 <= k < |s.chain| ==> s.chain[k] in linked && s.chain[k].owner == s)
    && PoolList(s.chain)
  }

  lemma HeadsAlone(pool: MemPool)
    requires pool.poolPrev == null && pool.poolNext == null
    ensures PoolList([pool])
  {}

  lemma HeadsAmongMore(s: MemPool, linked: set<MemPool>, pool: MemPool)
    requires Heads(s, linked)
    ensures Heads(s, linked + {pool})
  {}

  /** The lists of two segments have no pool in common. */
  lemma ListsApart(s: MemPool, head: MemPool, linked: set<MemPool>)
    requires s != head && Heads(s, linked) && Heads(head, linked)
    ensures forall p <- s.chain :: p !in head.chain
  {}

  /** A head goes between its neighbours. */
  method SpliceSeg(pool: MemPool, prev: MemPool?, next: MemPool?, ghost heads: seq<MemPool>, ghost i: nat)
    requires SegList(heads) && pool !in heads && i <= |heads| && heads != []
    requires prev == (if i == 0 then null else heads[i - 1])
    requires next == (if i == |heads| then null else heads[i])
    modifies heads`segPrev, heads`segNext, pool`segPrev, pool`segNext
    ensures SegList(heads[..i] + [pool] + heads[i..])
  {
    pool.segPrev := prev;
    pool.segNext := next;
    if prev != null { prev.segNext := pool; }
    if next != null { next.segPrev := pool; }
  }

  /** A pool goes right behind the head of its list. */
  method SplicePool(pool: MemPool, head: MemPool, ghost pools: seq<MemPool>)
    requires PoolList(pools) && pool !in pools && |pools| > 0 && pools[0] == head
    modifies pools`poolPrev, pools`poolNext, pool`poolPrev, pool`poolNext
    ensures PoolList([head, pool] + pools[1..])
  {
    var next := head.poolNext;
    assert next == if |pools| > 1 then pools[1] else null;
    pool.poolPrev := head;
    pool.poolNext := next;
    head.poolNext := pool;
    if next != null { next.poolPrev := pool; }
    ghost var after := [head, pool] + pools[1..];
    assert forall i :: 2 <= i < |after| ==> after[i] == pools[i - 1];
  }

  /** pool is configured as the creation a with outcome res requires. */
  ghost predicate Recorded(pool: MemPool, res: CreateRes, a: Args)
    reads pool
  {
    && pool.poolType == TypePool
    && pool.pool == Configured(res, a)
    && pool.ptrsAddr == res.ptrs
    && pool.poolSize == res.poolSize
  }

  /** The module's globals: Mem_PoolHeap and Mem_PoolTbl. */
  class MemLib {
    const heap: MemPool
    var poolTbl: MemPool?

    ghost var segs: seq<MemPool>     // segment heads, in link order
    ghost var heapIx: nat            // where the heap is among them
    ghost var linked: set<MemPool>   // all records reachable from the table
    ghost var regions: seq<Region>   // everything handed out

    /** The table's value: the links decide the order, the records the contents. */
    ghost function Contents(): Table
      reads this`segs, this`heapIx, this`regions, segs`seg
    {
      Table.Table(Segments(segs), heapIx, regions)
    }

    /** The segment heads, from poolTbl on; the heap is among them. */
    ghost predicate Horizontal()
      reads this`poolTbl, this`segs, this`heapIx, segs`segPrev, segs`segNext
    {
      && heapIx < |segs| && segs[heapIx] == heap
      && poolTbl == segs[0]
      && SegList(segs)
    }

    /** Every segment head heads the list of its own pools. */
    ghost predicate Vertical()
      reads this`segs, this`linked, linked`chain, linked`owner, linked`poolPrev, linked`poolNext
    {
      && (forall s <- segs :: s in linked)
      && (forall s <- segs :: Heads(s, linked))
    }

    ghost predicate Linked()
      reads this`poolTbl, this`segs, this`heapIx, this`linked, segs`segPrev, segs`segNext
      reads linked`chain, linked`owner, linked`poolPrev, linked`poolNext
    {
      Horizontal() && Vertical()
    }

    ghost predicate Valid()
      reads this, linked, segs
    {
      Linked() && Inv(Contents())
    }

    /** What a valid table says about the heap and the segment heads. */
    lemma ValidFacts()
      requires Valid()
      ensures Contents().Valid() && Contents().Heap() == heap.seg && heap.seg.Valid()
      ensures heapIx < |segs| && segs[heapIx] == heap && heap in linked
      ensures (forall s <- segs :: s in linked) && SegList(segs)
    {}

    /** Mem_Init(). */
    constructor (heapBase: int, heapSize: int)
      requires 1 <= heapBase && 1 <= heapSize && heapBase + heapSize <= U32
      ensures Valid() && fresh(linked)
      ensures Contents() == Init(heapBase, heapSize)
    {
      var h := new MemPool();
      h.poolType := TypeHeap;
      h.seg := Seg(heapBase, heapBase, heapSize, heapSize);
      h.owner := h;
      h.chain := [h];
      heap, poolTbl := h, h;
      segs, heapIx, linked, regions := [h], 0, {h}, [];
    }

    /** One block from the heap's segment; what is handed out is recorded by the caller. */
    method TakeHeap(size: int, align: int) returns (blk: int)
      requires Linked() && Inv(Contents()) && Arg(size) && Arg(align)
      modifies heap`seg
      ensures Linked()
      ensures (blk, heap.seg) == SegAlloc(old(heap.seg), size, align)
      ensures blk == 0 ==> heap.seg == old(heap.seg)
      ensures Segments(segs) == old(Segments(segs))[heapIx := heap.seg]
    {
      hide SegAlloc, Inv, Linked;
      ValidFacts();
      RefusalLeaves(heap.seg, size, align);
      ghost var before := Segments(segs);
      assert forall i :: 0 <= i < |segs| && i != heapIx ==> segs[i] != heap;
      blk := heap.AllocSeg(size, align);
      SegmentsUpdated(segs, heapIx, before);
    }

    /** Mem_HeapAlloc(). */
    method AllocHeap(size: int, align: int) returns (blk: int, octetsReqd: int, err: LibErr)
      requires Valid() && 0 <= size < U32 && 0 <= align < U32
      modifies this`regions, heap`seg
      ensures Valid()
      ensures (AllocRes(blk, octetsReqd, err), Contents()) == HeapAlloc(old(Contents()), size, align)
    {
      hide Inv, Linked, CalcTotSize, SegAlloc, Segments;
      HeapAllocKeeps(Contents(), size, align);
      ValidFacts();
      blk, octetsReqd := 0, 0;
      if size < 1 { err := InvalidMemSize; }
      else if align < 1 { err := InvalidMemAlign; }
      else {
        var sizeReq := CalcTotSize(heap.seg.next, 1, size, align);
        if sizeReq < 1 { octetsReqd, err := size, HeapOvf; }
        else if sizeReq > heap.seg.rem { octetsReqd, err := sizeReq - heap.seg.rem, HeapEmpty; }
        else {
          blk := TakeHeap(size, align);
          if blk == 0 { octetsReqd, err := sizeReq, HeapEmpty; }
          else {
            regions := regions + [Region(blk, size, align)];
            err := ErrNone;
          }
        }
      }
    }

    /**
     * The table search of Mem_PoolCreate(): an exact match, an overlap, or the neighbours of the place for a new
     * segment.
     */
    method Search(base: int, size: int)
      returns (found: MemPool?, overlap: bool, prev: MemPool?, next: MemPool?, ghost ix: nat)
      requires Valid() && 1 <= base && 1 <= size && base + size <= U32
      ensures match SearchFrom(Contents().segs, base, size, 0)
              case Overlap => overlap
              case Found(i) => !overlap && ix == i && found == prev == next == segs[i]
              case NewAt(i) => !overlap && ix == i && found == null
                               && prev == (if i == 0 then null else segs[i - 1])
                               && next == (if i == |segs| then null else segs[i])
    {
      found, overlap, prev, next, ix := null, false, null, poolTbl, 0;
      while next != null
        invariant ix <= |segs| && found == null && !overlap
        invariant prev == (if ix == 0 then null else segs[ix - 1])
        invariant next == (if ix == |segs| then null else segs[ix])
        invariant SearchFrom(Contents().segs, base, size, ix) == SearchFrom(Contents().segs, base, size, 0)
        decreases |segs| - ix
      {
        assert Contents().segs[ix] == next.seg;
        if base == next.seg.base && size == next.seg.tot {
          found, prev := next, next;
          break;
        }
        if base + size - 1 < next.seg.base { break; }
        if OverlapTest(base, base + size - 1, next.seg) {
          overlap := true;
          return;
        }
        prev := next;
        next := next.segNext;
        ix := ix + 1;
      }
    }

    /** A new segment is linked in between its neighbours. */
    method LinkSeg(pool: MemPool, prev: MemPool?, next: MemPool?, ghost i: nat)
      requires Linked() && pool !in linked && i <= |segs|
      requires prev == (if i == 0 then null else segs[i - 1])
      requires next == (if i == |segs| then null else segs[i])
      requires pool.poolPrev == null && pool.poolNext == null
      modifies this`poolTbl, this`segs, this`heapIx, this`linked, segs`segPrev, segs`segNext
      modifies pool`segPrev, pool`segNext, pool`owner, pool`chain
      ensures Linked()
      ensures segs == old(segs[..i]) + [pool] + old(segs[i..])
      ensures heapIx == (if i <= old(heapIx) then old(heapIx) + 1 else old(heapIx))
      ensures linked == old(linked) + {pool} && pool.chain == [pool]
    {
      SpliceSeg(pool, prev, next, segs, i);
      if prev == null { poolTbl := pool; }
      AdoptSeg(pool, i);
    }

    /** The new head heads a list of its own, and the other lists stay as they are. */
    ghost method AdoptAlone(pool: MemPool)
      requires Vertical() && pool !in linked && pool.poolPrev == null && pool.poolNext == null
      modifies pool`owner, pool`chain
      ensures pool.chain == [pool]
      ensures forall s <- segs :: s in linked && Heads(s, linked + {pool})
      ensures Heads(pool, linked + {pool})
    {
      pool.owner := pool;
      pool.chain := [pool];
      forall s <- segs ensures Heads(s, linked + {pool}) {
        HeadsAmongMore(s, linked, pool);
      }
      HeadsAlone(pool);
    }

    /** The ghost side of LinkSeg: the new head joins the table. */
    ghost method AdoptSeg(pool: MemPool, i: nat)
      requires i <= |segs| && heapIx < |segs| && segs[heapIx] == heap && pool !in linked
      requires SegList(segs[..i] + [pool] + segs[i..]) && poolTbl == (if i == 0 then pool else segs[0])
      requires Vertical() && pool.poolPrev == null && pool.poolNext == null
      modifies this`segs, this`heapIx, this`linked, pool`owner, pool`chain
      ensures Linked()
      ensures segs == old(segs[..i]) + [pool] + old(segs[i..])
      ensures heapIx == (if i <= old(heapIx) then old(heapIx) + 1 else old(heapIx))
      ensures linked == old(linked) + {pool} && pool.chain == [pool]
    {
      hide SegList, PoolList, Heads;
      AdoptAlone(pool);
      linked := linked + {pool};
      if i <= heapIx { heapIx := heapIx + 1; }
      segs := segs[..i] + [pool] + segs[i..];
      assert forall s <- segs :: s == pool || s in old(segs);
    }

    /** A new pool is linked in right behind the head of its segment. */
    method LinkPool(pool: MemPool, head: MemPool)
      requires Linked() && pool !in linked && head in segs
      modifies this`linked, linked`poolPrev, linked`poolNext, head`chain
      modifies pool`poolPrev, pool`poolNext, pool`owner
      ensures Linked()
      ensures linked == old(linked) + {pool} && head.chain == [head, pool] + old(head.chain)[1..]
    {
      hide SegList, PoolList;
      forall s <- segs | s != head ensures forall p <- s.chain :: p !in head.chain {
        ListsApart(s, head, linked);
      }
      SplicePool(pool, head, head.chain);
      AdoptPool(pool, head);
    }

    /** The ghost side of LinkPool: the new pool joins the list of its segment. */
    ghost method AdoptPool(pool: MemPool, head: MemPool)
      requires Horizontal() && pool !in linked && head in segs && |head.chain| > 0 && head.chain[0] == head
      requires forall s <- segs :: s in linked && (s == head || Heads(s, linked))
      requires forall p <- head.chain :: p in linked && p.owner == head
      requires PoolList([head, pool] + head.chain[1..])
      modifies this`linked, head`chain, pool`owner
      ensures Linked()
      ensures linked == old(linked) + {pool} && head.chain == [head, pool] + old(head.chain)[1..]
    {
      hide SegList;
      pool.owner := head;
      forall s <- segs | s != head ensures Heads(s, linked + {pool}) {
        HeadsAmongMore(s, linked, pool);
      }
      hide PoolList;
      head.chain := [head, pool] + head.chain[1..];
      linked := linked + {pool};
      assert Heads(head, linked);
      assert Vertical();
    }

    // ----- Mem_PoolCreate(), step by step -----

    /** Sizes of a pool whose blocks come from the heap. */
    method ValidateHeap(a: Args) returns (res: CreateRes, start: int, poolSize: int, sizeTot: int)
      requires Valid() && a.Words() && CheckArgs(a) == ErrNone
      ensures if res.err == ErrNone
              then CheckHeap(Contents(), a) == Passed(Contents(), heapIx, start, poolSize, sizeTot)
              else CheckHeap(Contents(), a) == Refused(res)
    {
      hide Wrap, PtrsOk, CalcTotSize, Inv, Linked, Segments, SegList;
      ValidFacts();
      start, poolSize, sizeTot := 0, 0, 0;
      var sizePtrs := CalcTotSize(heap.seg.next, a.nbr, PTR_SIZE, PTR_SIZE);
      if sizePtrs < 1 { res := Refuse(HeapOvf, 0); }
      else {
        start := Wrap(heap.seg.next + sizePtrs);
        poolSize := CalcTotSize(start, a.nbr, a.size, a.align);
        sizeTot := Wrap(sizePtrs + poolSize);
        res := if poolSize < 1 then Refuse(HeapOvf, 0)
               else if sizeTot < sizePtrs || sizeTot < poolSize then Refuse(HeapOvf, 0)
               else if sizeTot > heap.seg.rem then Refuse(HeapEmpty, sizeTot - heap.seg.rem)
               else Refuse(ErrNone, 0);
      }
    }

    /** Sizes of a pool in dedicated memory, whose segment blk records. */
    method ValidateSeg(blk: MemPool, a: Args, ghost t: Table, ghost ix: nat)
      returns (res: CreateRes, start: int, poolSize: int)
      requires t.Valid() && t.Heap() == heap.seg && ix < |t.segs| && t.segs[ix] == blk.seg
      requires a.Words() && CheckArgs(a) == ErrNone
      ensures if res.err == ErrNone then CheckSizes(t, ix, a) == Passed(t, ix, start, poolSize, 0)
              else CheckSizes(t, ix, a) == Refused(res)
    {
      assert heap.seg.Valid() && blk.seg.Valid();
      hide CalcTotSize;
      start, poolSize := 0, 0;
      var sizePtrs := CalcTotSize(heap.seg.next, a.nbr, PTR_SIZE, PTR_SIZE);
      if sizePtrs < 1 { res := Refuse(HeapOvf, 0); }
      else if sizePtrs > heap.seg.rem { res := Refuse(HeapEmpty, sizePtrs - heap.seg.rem); }
      else {
        start := blk.seg.next;
        poolSize := CalcTotSize(start, a.nbr, a.size, a.align);
        res := if poolSize < 1 then Refuse(SegOvf, 0)
               else if poolSize > blk.seg.rem then Refuse(SegEmpty, poolSize - blk.seg.rem)
               else Refuse(ErrNone, 0);
      }
    }

    /** Where blk is, or is to be linked in. */
    ghost predicate At(ix: nat, pool: MemPool, blk: MemPool, prev: MemPool?, next: MemPool?)
      reads this`segs
    {
      if blk == pool then
        && ix <= |segs|
        && prev == (if ix == 0 then null else segs[ix - 1])
        && next == (if ix == |segs| then null else segs[ix])
      else
        ix < |segs| && blk == prev == next == segs[ix]
    }

    /** Table search for a pool in dedicated memory; a segment not found is recorded in the pool itself. */
    method LocateSeg(pool: MemPool, a: Args)
      returns (overlap: bool, blk: MemPool, prev: MemPool?, next: MemPool?, ghost t: Table, ghost ix: nat)
      requires Valid() && 1 <= a.base && 1 <= a.memSize && a.base + a.memSize <= U32
      requires pool !in linked
      modifies pool`seg
      ensures Segments(segs) == old(Segments(segs))
      ensures overlap <==> SearchFrom(Contents().segs, a.base, a.memSize, 0) == Overlap
      ensures !overlap ==>
                && At(ix, pool, blk, prev, next)
                && SearchFrom(Contents().segs, a.base, a.memSize, 0) == (if blk == pool then NewAt(ix) else Found(ix))
                && t == (if blk == pool then Contents().Insert(ix, pool.seg) else Contents())
                && (blk == pool ==> pool.seg == NewSeg(a))
                && t.Valid() && t.Heap() == heap.seg && ix < |t.segs| && t.segs[ix] == blk.seg
    {
      hide Inv, Linked, SearchFrom, SegList, Segments;
      ValidFacts();
      assert pool !in segs;
      blk, t := pool, Contents();
      var found;
      found, overlap, prev, next, ix := Search(a.base, a.memSize);
      if !overlap {
        if found == null {
          pool.seg := NewSeg(a);
          Inserted(t, ix, NewSeg(a));
          t := t.Insert(ix, pool.seg);
        } else {
          blk := found;
        }
      }
    }

    /** Search and sizes of a pool in dedicated memory. */
    method ValidateDedicated(pool: MemPool, a: Args)
      returns (res: CreateRes, blk: MemPool, prev: MemPool?, next: MemPool?, start: int, poolSize: int,
               ghost t: Table, ghost ix: nat)
      requires Valid() && a.Words() && CheckArgs(a) == ErrNone && a.base != 0
      requires pool !in linked
      modifies pool`seg
      ensures Segments(segs) == old(Segments(segs))
      ensures if res.err == ErrNone
              then CheckDedicated(Contents(), a) == Passed(t, ix, start, poolSize, 0)
                   && At(ix, pool, blk, prev, next)
                   && t.Valid() && t.Heap() == heap.seg
                   && t == (if blk == pool then Contents().Insert(ix, pool.seg) else Contents())
              else CheckDedicated(Contents(), a) == Refused(res)
    {
      hide Inv, Linked, Segments, SegList, SearchFrom, CheckSizes, At;
      ValidFacts();
      blk, prev, next, start, poolSize, t, ix := pool, null, null, 0, 0, Contents(), 0;
      if Wrap(a.base + a.memSize - 1) < a.base {
        res := Refuse(InvalidBlkAddr, 0);
      } else {
        SumWraps(a.base, a.memSize - 1);
        var overlap;
        overlap, blk, prev, next, t, ix := LocateSeg(pool, a);
        if overlap {
          res := Refuse(InvalidSegOverlap, 0);
        } else {
          res, start, poolSize := ValidateSeg(blk, a, t, ix);
        }
      }
    }

    /** The blocks of a pool, from the segment that blk records. */
    method TakeBlks(pool: MemPool, blk: MemPool, a: Args, ghost ix: nat) returns (blks: seq<int>)
      requires Linked() && pool !in linked && Arg(a.size) && Arg(a.align) && a.nbr >= 0
      requires blk == pool || (ix < |segs| && blk == segs[ix])
      modifies blk`seg
      ensures Linked()
      ensures (blks, blk.seg) == AllocN(old(blk.seg), a.nbr, a.size, a.align)
      ensures Segments(segs) == if blk == pool then old(Segments(segs)) else old(Segments(segs))[ix := blk.seg]
    {
      assert pool !in segs;
      ghost var before := Segments(segs);
      blks := blk.AllocBlks(a.nbr, a.size, a.align);
      if blk != pool { SegmentsUpdated(segs, ix, before); }
    }

    /** Update of the table: a new segment, or a new pool of an old segment. */
    method Link(pool: MemPool, blk: MemPool, prev: MemPool?, next: MemPool?, ghost ix: nat)
      requires Linked() && pool !in linked && pool.poolPrev == null && pool.poolNext == null
      requires At(ix, pool, blk, prev, next)
      modifies this`poolTbl, this`segs, this`heapIx, this`linked
      modifies linked`segPrev, linked`segNext, linked`poolPrev, linked`poolNext, linked`chain
      modifies pool`segPrev, pool`segNext, pool`poolPrev, pool`poolNext, pool`owner, pool`chain
      ensures Linked() && linked == old(linked) + {pool}
      ensures if blk == pool
              then segs == old(segs)[..ix] + [pool] + old(segs)[ix..]
                   && heapIx == (if ix <= old(heapIx) then old(heapIx) + 1 else old(heapIx))
              else segs == old(segs) && heapIx == old(heapIx)
      ensures Segments(segs) == if blk == pool then old(Segments(segs))[..ix] + [pool.seg] + old(Segments(segs))[ix..]
                                else old(Segments(segs))
    {
      hide SegList, Heads, Segments;
      if blk == pool { NeighboursDiffer(ix, prev, next); }
      if prev == next {
        LinkPool(pool, blk);
      } else {
        SegmentsInsert(segs, ix, pool);
        LinkSeg(pool, prev, next, ix);
      }
    }

    /** Allocation of the blocks, then update of the table. */
    method CommitBlks(pool: MemPool, blk: MemPool, prev: MemPool?, next: MemPool?, a: Args, ptrs: int, ghost ix: nat)
      returns (err: LibErr, octetsReqd: int, blks: seq<int>)
      requires Linked() && pool !in linked && pool.poolPrev == null && pool.poolNext == null
      requires a.Words() && CheckArgs(a) == ErrNone && At(ix, pool, blk, prev, next)
      modifies this, blk`seg, linked`segPrev, linked`segNext, linked`poolPrev, linked`poolNext, linked`chain
      modifies pool`segPrev, pool`segNext, pool`poolPrev, pool`poolNext, pool`owner, pool`chain
      ensures Linked()
      ensures (blks, blk.seg) == AllocN(old(blk.seg), a.nbr, a.size, a.align)
      ensures var isNew, values := blk == pool, old(Segments(segs));
              if |blks| < a.nbr then
                && err == SegEmpty
                && octetsReqd
                   == Shortfall(CalcTotSize(Wrap(blk.seg.next), a.nbr - |blks|, a.size, a.align), blk.seg.rem)
                && Contents() == Table.Table(if isNew then values else values[ix := blk.seg], old(heapIx), old(regions))
                && linked == old(linked)
              else
                && err == ErrNone && octetsReqd == 0
                && Contents() == Table.Table(if isNew then values[..ix] + [blk.seg] + values[ix..]
                                             else values[ix := blk.seg],
                                          if isNew && ix <= old(heapIx) then old(heapIx) + 1 else old(heapIx),
                                          old(regions) + [Region(ptrs, PtrsLen(a.nbr), PTR_SIZE)]
                                          + BlkRegions(blks, a.size, a.align))
                && linked == old(linked) + {pool}
    {
      hide AllocN, CalcTotSize, Segments, Linked, BlkRegions;
      blks := TakeBlks(pool, blk, a, ix);
      if |blks| < a.nbr {
        var need := CalcTotSize(Wrap(blk.seg.next), a.nbr - |blks|, a.size, a.align);
        err, octetsReqd := SegEmpty, Shortfall(need, blk.seg.rem);
      } else {
        Link(pool, blk, prev, next, ix);
        regions := regions + [Region(ptrs, PtrsLen(a.nbr), PTR_SIZE)] + BlkRegions(blks, a.size, a.align);
        err, octetsReqd := ErrNone, 0;
      }
    }

    /** Allocation of the pointer table, then of the blocks. */
    method Commit(pool: MemPool, blk: MemPool, prev: MemPool?, next: MemPool?, a: Args, sizeTot: int, ghost c: Check)
      returns (err: LibErr, octetsReqd: int, ptrs: int, blks: seq<int>)
      requires Valid() && pool !in linked && pool.poolPrev == null && pool.poolNext == null
      requires a.Words() && CheckArgs(a) == ErrNone && PtrsOk(a.nbr)
      requires c.Passed? && c.t.Valid() && c.ix < |c.t.segs| && c.sizeTot == sizeTot
      requires At(c.ix, pool, blk, prev, next) && c.t.Heap() == heap.seg
      requires c.t == if blk == pool then Contents().Insert(c.ix, pool.seg) else Contents()
      modifies this, heap`seg, blk`seg, linked`segPrev, linked`segNext, linked`poolPrev, linked`poolNext, linked`chain
      modifies pool`segPrev, pool`segNext, pool`poolPrev, pool`poolNext, pool`owner, pool`chain
      ensures Linked()
      ensures var (res, t') := Allocate(old(Contents()), c, a);
              && Contents() == t'
              && err == res.err && octetsReqd == res.octetsReqd
              && (err == ErrNone ==>
                    ptrs == res.ptrs && blks == res.blks && res.start == c.start && res.poolSize == c.poolSize)
      ensures linked == if err == ErrNone then old(linked) + {pool} else old(linked)
    {
      ghost var t := Contents();
      hide Inv, AllocN, SegAlloc, CalcTotSize, Linked, SegList, Allocate, Shortfall, BlkRegions;
      ValidFacts();
      assert t.Valid() && t.Heap() == heap.seg;
      assert blk != pool ==> t.segs[c.ix] == blk.seg && (blk == heap <==> c.ix == t.heap);
      assert pool != heap;
      blks := [];
      ptrs := TakeHeap(PtrsLen(a.nbr), PTR_SIZE);
      if ptrs == 0 {
        PtrsRefused(t, c, a);
        err, octetsReqd := HeapEmpty, Shortfall(if a.base == 0 then sizeTot else PtrsLen(a.nbr), heap.seg.rem);
      } else {
        ghost var s1 := blk.seg;
        err, octetsReqd, blks := CommitBlks(pool, blk, prev, next, a, ptrs, c.ix);
        AllocateCases(t, c, a, blk == pool, s1, blks, blk.seg);
      }
    }

    /** Validation of a creation, up to the search and the sizes. */
    method Validate(pool: MemPool, a: Args)
      returns (res: CreateRes, blk: MemPool, prev: MemPool?, next: MemPool?, ghost c: Check,
               start: int, poolSize: int, sizeTot: int)
      requires Valid() && a.Words() && pool !in linked
      modifies pool`seg
      ensures Valid() && Contents() == old(Contents())
      ensures CheckCreate(Contents(), a) == c
      ensures res.err == ErrNone ==> blk == pool || blk in linked
      ensures if res.err != ErrNone then c == Refused(res)
              else
                && CheckArgs(a) == ErrNone
                && c.Passed? && c.start == start && c.poolSize == poolSize && c.sizeTot == sizeTot
                && c.t.Valid() && c.ix < |c.t.segs| && At(c.ix, pool, blk, prev, next) && c.t.Heap() == heap.seg
                && c.t == (if blk == pool then Contents().Insert(c.ix, pool.seg) else Contents())
    {
      hide Inv, Linked, SegList, CheckDedicated, CheckHeap, Segments, CheckArgs;
      ValidFacts();
      assert pool !in segs;
      blk, prev, next, start, poolSize, sizeTot := heap, heap, heap, 0, 0, 0;
      c := CheckCreate(Contents(), a);
      if CheckArgs(a) != ErrNone {
        res := Refuse(CheckArgs(a), 0);
      } else if a.base == 0 {
        res, start, poolSize, sizeTot := ValidateHeap(a);
      } else {
        ghost var t, ix;
        res, blk, prev, next, start, poolSize, t, ix := ValidateDedicated(pool, a);
      }
    }

    /** Mem_PoolCreate() of a cleared pool. */
    method Build(pool: MemPool, a: Args) returns (octetsReqd: int, err: LibErr)
      requires Valid() && a.Words() && pool !in linked
      requires pool.poolType == TypeNone && pool.poolPrev == null && pool.poolNext == null
      modifies this, linked, pool
      ensures Linked()
      ensures var (res, t) := Create(old(Contents()), a);
              && (err, octetsReqd, Contents()) == (res.err, res.octetsReqd, t)
              && (err == ErrNone ==> Recorded(pool, res, a))
      ensures linked == if err == ErrNone then old(linked) + {pool} else old(linked)
      ensures err != ErrNone ==> pool.poolType == TypeNone
    {
      hide Inv, Linked, SegList, Allocate, CheckCreate, Segments, At, CheckArgs;
      ValidFacts();
      var res, blk, prev, next, c, start, poolSize, sizeTot := Validate(pool, a);
      octetsReqd, err := res.octetsReqd, res.err;
      if err == ErrNone {
        var ptrs, blks;
        err, octetsReqd, ptrs, blks := Commit(pool, blk, prev, next, a, sizeTot, c);
        if err == ErrNone {
          pool.Configure(a, start, poolSize, ptrs, blks);
        }
      }
    }

    /** Mem_PoolCreate(). */
    method CreatePool(pool: MemPool?, a: Args) returns (octetsReqd: int, err: LibErr)
      requires Valid() && a.Words() && (pool != null ==> pool !in linked)
      modifies this, linked, if pool == null then {} else {pool}
      ensures Valid()
      ensures if pool == null then (err, octetsReqd, Contents()) == (NullPtr, 0, old(Contents()))
              else var (res, t) := Create(old(Contents()), a);
                   && (err, octetsReqd, Contents()) == (res.err, res.octetsReqd, t)
                   && linked == (if err == ErrNone then old(linked) + {pool} else old(linked))
                   && (if err == ErrNone then Recorded(pool, res, a) else pool.poolType == TypeNone)
    {
      if pool == null {
        octetsReqd, err := 0, NullPtr;
      } else {
        hide Inv, Linked, Create, SegList, Segments;
        ValidFacts();
        CreateKeeps(Contents(), a);
        assert pool !in segs;
        pool.Clear();
        octetsReqd, err := Build(pool, a);
      }
    }

    lemma NeighboursDiffer(ix: nat, prev: MemPool?, next: MemPool?)
      requires Horizontal() && ix <= |segs|
      requires prev == (if ix == 0 then null else segs[ix - 1])
      requires next == (if ix == |segs| then null else segs[ix])
      ensures prev != next
    {}
  }

  lemma PtrsRefused(t: Table, c: Check, a: Args)
    requires t.Valid() && a.Words() && CheckArgs(a) == ErrNone && PtrsOk(a.nbr)
    requires c.Passed? && c.t.Valid() && c.ix < |c.t.segs|
    requires SegAlloc(c.t.Heap(), PtrsLen(a.nbr), PTR_SIZE).0 == 0
    ensures Allocate(t, c, a)
            == (Refuse(HeapEmpty, Shortfall(if a.base == 0 then c.sizeTot else PtrsLen(a.nbr), c.t.Heap().rem)), t)
  {}

  /** The table that Allocate() leaves, spelled out for a new segment and for an old one. */
  lemma AllocateCases(t: Table, c: Check, a: Args, isNew: bool, s1: Seg, blks: seq<int>, s: Seg)
    requires t.Valid() && a.Words() && CheckArgs(a) == ErrNone && PtrsOk(a.nbr)
    requires c.Passed? && c.t.Valid() && c.ix < |c.t.segs| && c.t.Heap() == t.Heap()
    requires if isNew then c.ix <= |t.segs| && c.t == t.Insert(c.ix, s1) else c.t == t
    requires SegAlloc(t.Heap(), PtrsLen(a.nbr), PTR_SIZE).0 != 0
    requires !isNew ==> s1 == (if c.ix == t.heap then SegAlloc(t.Heap(), PtrsLen(a.nbr), PTR_SIZE).1 else t.segs[c.ix])
    requires (blks, s) == AllocN(s1, a.nbr, a.size, a.align)
    ensures var (ptrs, heap) := SegAlloc(t.Heap(), PtrsLen(a.nbr), PTR_SIZE);
            var segs := t.segs[t.heap := heap];
            var (res, t') := Allocate(t, c, a);
            if |blks| < a.nbr then
              && res == Refuse(SegEmpty, Shortfall(CalcTotSize(Wrap(s.next), a.nbr - |blks|, a.size, a.align), s.rem))
              && t' == t.(segs := if isNew then segs else segs[c.ix := s])
            else
              && res == CreateRes(ErrNone, 0, c.start, c.poolSize, ptrs, blks)
              && t'.segs == (if isNew then segs[..c.ix] + [s] + segs[c.ix..] else segs[c.ix := s])
              && t'.heap == (if isNew && c.ix <= t.heap then t.heap + 1 else t.heap)
              && t'.regions == t.regions + [Region(ptrs, PtrsLen(a.nbr), PTR_SIZE)] + BlkRegions(blks, a.size, a.align)
  {
    hide CalcTotSize, AllocN, SegAlloc, BlkRegions;
  }

  lemma Inserted(t: Table, ix: nat, s: Seg)
    requires t.Valid() && ix <= |t.segs| && s.Valid()
    ensures var t' := t.Insert(ix, s);
            t'.Valid() && t'.Heap() == t.Heap() && |t'.segs| == |t.segs| + 1 && t'.segs[ix] == s
  {
    var t' := t.Insert(ix, s);
    forall j | 0 <= j < |t'.segs| ensures t'.segs[j].Valid() {
      assert t'.segs[j] == if j < ix then t.segs[j] else if j == ix then s else t.segs[j - 1];
    }
  }

  lemma RefusalLeaves(s: Seg, size: int, align: int)
    requires s.Valid() && Arg(size) && Arg(align)
    ensures SegAlloc(s, size, align).0 == 0 ==> SegAlloc(s, size, align).1 == s
  {
    SegAllocExact(s, size, align);
  }

  /** Once a block is refused, the loop is over. */
  lemma {:induction false} RefusalStops(s: Seg, i: nat, n: nat, size: int, align: int)
    requires Arg(size) && Arg(align) && i < n
    requires var (blks, s1) := AllocN(s, i, size, align); |blks| == i && SegAlloc(s1, size, align).0 == 0
    ensures AllocN(s, n, size, align) == AllocN(s, i + 1, size, align) && |AllocN(s, n, size, align).0| == i
    decreases n
  {
    if i + 1 < n { RefusalStops(s, i, n - 1, size, align); }
  }
}
