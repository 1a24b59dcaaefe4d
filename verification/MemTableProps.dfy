/**
 * Properties of the allocator (lib_mem.c): the table search, what every run keeps, exactly when
 * a pool is created, and what a refusal leaves behind.
 */
module MemTableProps {
  import opened Arith
  import opened LibErrors
  import opened SegArith
  import opened PoolBlks
  import opened MemTable

  // ----- the search of the table -----

  /** Ascending base addresses and disjoint ranges. */
  ghost predicate Sorted(segs: seq<Seg>)
  {
    forall i, j :: 0 <= i < j < |segs| ==> segs[i].End() <= segs[j].base
  }

  ghost predicate AllValid(segs: seq<Seg>)
  {
    forall i :: 0 <= i < |segs| ==> segs[i].Valid()
  }

  predicate Matches(s: Seg, base: int, size: int) { s.base == base && s.tot == size }

  /** s and [base, base + size) share an address. */
  predicate Overlaps(s: Seg, base: int, size: int) { s.base < base + size && base < s.End() }

  lemma {:induction false} SearchFromCorrect(segs: seq<Seg>, base: int, size: int, i: nat)
    requires Sorted(segs) && AllValid(segs) && 1 <= base && 1 <= size && i <= |segs|
    requires forall j :: 0 <= j < i ==> segs[j].End() <= base
    ensures match SearchFrom(segs, base, size, i)
            case Found(k) => Matches(segs[k], base, size)
            case Overlap => (exists j :: 0 <= j < |segs| && Overlaps(segs[j], base, size))
                            && (forall j :: 0 <= j < |segs| ==> !Matches(segs[j], base, size))
            case NewAt(k) => (forall j :: 0 <= j < k ==> segs[j].End() <= base)
                             && (forall j :: k <= j < |segs| ==> base + size <= segs[j].base)
    decreases |segs| - i
  {
    if i < |segs| && !Matches(segs[i], base, size) && !(base + size - 1 < segs[i].base) {
      if OverlapTest(base, base + size - 1, segs[i]) {
        assert Overlaps(segs[i], base, size);
      } else {
        SearchFromCorrect(segs, base, size, i + 1);
      }
    }
  }

  /**
   * The search, which leaves the loop early, answers for the whole table: an exact match if there is
   * one, otherwise overlap if and only if some segment overlaps, otherwise the place that keeps the order.
   */
  lemma SearchCorrect(segs: seq<Seg>, base: int, size: int)
    requires Sorted(segs) && AllValid(segs) && 1 <= base && 1 <= size
    ensures var r := SearchFrom(segs, base, size, 0);
            var exact := exists j :: 0 <= j < |segs| && Matches(segs[j], base, size);
            var overlap := exists j :: 0 <= j < |segs| && Overlaps(segs[j], base, size);
            && (r.Found? <==> exact)
            && (r.Overlap? <==> !exact && overlap)
            && (r.NewAt? <==> !exact && !overlap)
            && (r.Found? ==> Matches(segs[r.ix], base, size))
            && (r.NewAt? ==> Sorted(segs[..r.ix] + [Seg(base, base, size, size)] + segs[r.ix..]))
  {
    SearchFromCorrect(segs, base, size, 0);
    var r := SearchFrom(segs, base, size, 0);
    if r.NewAt? {
      hide SearchFrom;
      InsertSorted(segs, r.ix, Seg(base, base, size, size));
    }
  }

  lemma InsertSorted(segs: seq<Seg>, k: nat, s: Seg)
    requires Sorted(segs) && AllValid(segs) && k <= |segs| && s.tot >= 1
    requires forall j :: 0 <= j < k ==> segs[j].End() <= s.base
    requires forall j :: k <= j < |segs| ==> s.End() <= segs[j].base
    ensures Sorted(segs[..k] + [s] + segs[k..])
    ensures forall j :: 0 <= j < |segs| ==> !Overlaps(segs[j], s.base, s.tot) && !Matches(segs[j], s.base, s.tot)
  {
    var segs' := segs[..k] + [s] + segs[k..];
    assert forall j :: 0 <= j < |segs'| ==> segs'[j] == if j < k then segs[j] else if j == k then s else segs[j - 1];
    assert forall j :: 0 <= j < |segs| ==> segs[j].Valid();
  }

  // ----- what every run keeps -----

  /** r lies in the allocated part of s. */
  predicate Within(s: Seg, r: Region) { s.base <= r.addr && r.addr + r.len <= s.next }

  predicate Apart(r: Region, s: Region) { r.addr + r.len <= s.addr || s.addr + s.len <= r.addr }

  ghost predicate Placed(segs: seq<Seg>, r: Region)
  {
    && r.len >= 1 && r.align >= 1 && r.addr % r.align == 0
    && exists i :: 0 <= i < |segs| && Within(segs[i], r)
  }

  ghost predicate AllPlaced(segs: seq<Seg>, rs: seq<Region>)
  {
    forall k :: 0 <= k < |rs| ==> Placed(segs, rs[k])
  }

  ghost predicate PairwiseApart(rs: seq<Region>)
  {
    forall k, l :: 0 <= k < l < |rs| ==> Apart(rs[k], rs[l])
  }

  /**
   * The segments are in order and disjoint, each accounts for every octet it has, and everything ever
   * handed out is aligned, inside a segment, and disjoint from everything else handed out.
   */
  ghost predicate Inv(t: Table)
  {
    && t.Valid()
    && Sorted(t.segs)
    && AllPlaced(t.segs, t.regions)
    && PairwiseApart(t.regions)
  }

  /** The regions rs are new in a segment that grows from s to s'. */
  ghost predicate Fresh(s: Seg, s': Seg, rs: seq<Region>)
  {
    && s'.Valid() && s'.base == s.base && s'.tot == s.tot && s.next <= s'.next
    && (forall k :: 0 <= k < |rs| ==>
          && rs[k].len >= 1 && rs[k].align >= 1 && rs[k].addr % rs[k].align == 0
          && s.next <= rs[k].addr && rs[k].addr + rs[k].len <= s'.next)
    && PairwiseApart(rs)
  }

  lemma GrowKeeps(t: Table, i: nat, s': Seg, rs: seq<Region>)
    requires Inv(t) && i < |t.segs| && Fresh(t.segs[i], s', rs)
    ensures Inv(t.Grow(i, s', rs))
  {
    var t' := t.Grow(i, s', rs);
    forall k | 0 <= k < |t'.regions| ensures Placed(t'.segs, t'.regions[k]) {
      if k < |t.regions| {
        assert Placed(t.segs, t.regions[k]);
        var j :| 0 <= j < |t.segs| && Within(t.segs[j], t.regions[k]);
        assert Within(t'.segs[j], t.regions[k]);
      } else {
        assert Within(t'.segs[i], t'.regions[k]);
      }
    }
    forall k, l | 0 <= k < |t.regions| && 0 <= l < |rs| ensures Apart(t.regions[k], rs[l]) {
      assert Placed(t.segs, t.regions[k]);
      var j :| 0 <= j < |t.segs| && Within(t.segs[j], t.regions[k]);
      assert t.segs[j].Valid() && t.segs[i].Valid();
    }
  }

  lemma InsertKeeps(t: Table, i: nat, s: Seg)
    requires Inv(t) && i <= |t.segs| && s.Valid() && Sorted(t.Insert(i, s).segs)
    ensures Inv(t.Insert(i, s)) && t.Insert(i, s).Heap() == t.Heap()
  {
    hide Sorted, Placed;
    var t' := t.Insert(i, s);
    forall k | 0 <= k < |t.regions| ensures Placed(t'.segs, t.regions[k]) {
      PlacedInsert(t.segs, i, s, t.regions[k]);
    }
  }

  lemma PlacedInsert(segs: seq<Seg>, i: nat, s: Seg, r: Region)
    requires Placed(segs, r) && i <= |segs|
    ensures Placed(segs[..i] + [s] + segs[i..], r)
  {
    var j :| 0 <= j < |segs| && Within(segs[j], r);
    assert Within((segs[..i] + [s] + segs[i..])[if j < i then j else j + 1], r);
  }

  lemma SegAllocFresh(s: Seg, size: int, align: int)
    requires s.Valid() && Arg(size) && Arg(align)
    ensures var (blk, s') := SegAlloc(s, size, align);
            if blk == 0 then s' == s else Fresh(s, s', [Region(blk, size, align)]) && Fresh(s, s', [])
  {
    SegAllocExact(s, size, align);
    BlkAddrAligned(s.next, 0, size, align);
    if Fits(s, 1, size, align) {
      AdvanceValid(s, 1, size, align);
      BlksInRange(s.next, 1, size, align, 0);
    }
  }

  lemma BlksFresh(s: Seg, n: nat, size: int, align: int)
    requires s.Valid() && Arg(n) && Arg(size) && Arg(align)
    ensures var (blks, s') := AllocN(s, n, size, align);
            Fresh(s, s', BlkRegions(blks, size, align)) && Fresh(s, s', [])
  {
    AllocNExact(s, n, size, align);
    var (blks, s') := AllocN(s, n, size, align);
    var m := |blks|;
    forall k | 0 <= k < m
      ensures blks[k] % align == 0 && s.next <= blks[k] && blks[k] + size <= s'.next
    {
      BlkAddrAligned(s.next, k, size, align);
      BlksInRange(s.next, m, size, align, k);
    }
    forall k, l | 0 <= k < l < m ensures blks[k] + size <= blks[l] {
      BlksApart(s.next, k, l, size, align);
    }
  }

  lemma HeapAllocKeeps(t: Table, size: int, align: int)
    requires Inv(t) && 0 <= size < U32 && 0 <= align < U32
    ensures Inv(HeapAlloc(t, size, align).1) && SameHeap(t, HeapAlloc(t, size, align).1)
  {
    if size >= 1 && align >= 1 {
      SegAllocFresh(t.Heap(), size, align);
      var (blk, s) := SegAlloc(t.Heap(), size, align);
      if blk != 0 { GrowKeeps(t, t.heap, s, [Region(blk, size, align)]); }
    }
  }

  /** The validation passes on a table that is in order, with the pool's segment in it. */
  lemma PassedKeeps(t: Table, a: Args)
    requires Inv(t) && a.Words() && CheckCreate(t, a).Passed?
    ensures var c := CheckCreate(t, a);
            && CheckArgs(a) == ErrNone && PtrsOk(a.nbr)
            && Inv(c.t) && c.ix < |c.t.segs| && c.t.Heap() == t.Heap() && c.t.regions == t.regions
            && (c.t == t || (c.t == t.Insert(c.ix, NewSeg(a)) && c.ix != c.t.heap))
  {
    if a.base != 0 {
      SumWraps(a.base, a.memSize - 1);
      SearchCorrect(t.segs, a.base, a.memSize);
      var r := SearchFrom(t.segs, a.base, a.memSize, 0);
      if r.NewAt? { InsertKeeps(t, r.ix, NewSeg(a)); }
    }
  }

  lemma AllocateKeeps(t: Table, c: Check, a: Args)
    requires Inv(t) && a.Words() && CheckArgs(a) == ErrNone && PtrsOk(a.nbr)
    requires c.Passed? && Inv(c.t) && c.ix < |c.t.segs| && c.t.Heap() == t.Heap()
    requires c.t == t || (c.ix <= |t.segs| && c.t == t.Insert(c.ix, NewSeg(a)) && c.ix != c.t.heap)
    ensures Inv(Allocate(t, c, a).1) && SameHeap(t, Allocate(t, c, a).1)
  {
    hide Sorted, AllPlaced, PairwiseApart, SegAlloc, AllocN, CalcTotSize, BlkRegions;
    var sizePtrs := PtrsLen(a.nbr);
    SegAllocFresh(c.t.Heap(), sizePtrs, PTR_SIZE);
    var (ptrs, heap) := SegAlloc(c.t.Heap(), sizePtrs, PTR_SIZE);
    if ptrs != 0 {
      var rs := [Region(ptrs, sizePtrs, PTR_SIZE)];
      GrowKeeps(c.t, c.t.heap, heap, rs);
      var t1 := c.t.Grow(c.t.heap, heap, rs);
      BlksFresh(t1.segs[c.ix], a.nbr, a.size, a.align);
      var (blks, s) := AllocN(t1.segs[c.ix], a.nbr, a.size, a.align);
      if |blks| == a.nbr {
        GrowKeeps(t1, c.ix, s, BlkRegions(blks, a.size, a.align));
      } else {
        GrowKeeps(t, t.heap, heap, []);
        if c.t == t {
          var t2 := t.Grow(t.heap, heap, []);
          GrowKeeps(t2, c.ix, s, []);
          assert t2.Grow(c.ix, s, []).regions == t.regions;
        }
        assert t.regions + [] == t.regions;
      }
    }
  }

  lemma CreateKeeps(t: Table, a: Args)
    requires Inv(t) && a.Words()
    ensures Inv(Create(t, a).1) && SameHeap(t, Create(t, a).1)
  {
    var c := CheckCreate(t, a);
    if c.Passed? {
      PassedKeeps(t, a);
      AllocateKeeps(t, c, a);
    }
  }

  datatype Op = HeapOp(size: int, align: int) | PoolOp(a: Args) {
    predicate Words() {
      match this
      case HeapOp(size, align) => 0 <= size < U32 && 0 <= align < U32
      case PoolOp(a) => a.Words()
    }
  }

  ghost function Step(t: Table, op: Op): Table
    requires t.Valid() && op.Words()
  {
    match op
    case HeapOp(size, align) => HeapAlloc(t, size, align).1
    case PoolOp(a) => Create(t, a).1
  }

  /** The table after a run of allocations and creations, successful or not. */
  ghost function Run(t: Table, ops: seq<Op>): (t': Table)
    requires Inv(t) && forall k :: 0 <= k < |ops| ==> ops[k].Words()
    ensures Inv(t') && SameHeap(t, t')
  {
    if ops == [] then t
    else
      var t1, op := Run(t, ops[..|ops| - 1]), ops[|ops| - 1];
      StepKeeps(t1, op);
      Step(t1, op)
  }

  /** The heap's segment keeps its place in memory, and nothing handed out is forgotten. */
  ghost predicate SameHeap(t: Table, t': Table)
    requires t.Valid() && t'.Valid()
  {
    t'.Heap().base == t.Heap().base && t'.Heap().tot == t.Heap().tot && t.regions <= t'.regions
  }

  lemma StepKeeps(t: Table, op: Op)
    requires Inv(t) && op.Words()
    ensures Inv(Step(t, op)) && SameHeap(t, Step(t, op))
  {
    match op
    case HeapOp(size, align) => HeapAllocKeeps(t, size, align);
    case PoolOp(a) => CreateKeeps(t, a);
  }

  /** Mem_Init(): one segment, the heap, with nothing handed out. */
  function Init(heapBase: int, heapSize: int): Table
  {
    Table([Seg(heapBase, heapBase, heapSize, heapSize)], 0, [])
  }

  /**
   * Over every run from initialisation: no two regions ever handed out share an octet, each is
   * aligned and lies in a segment of the table, and every segment accounts for all its octets.
   */
  lemma RunSafe(heapBase: int, heapSize: int, ops: seq<Op>)
    requires 1 <= heapBase && 1 <= heapSize && heapBase + heapSize <= U32
    requires forall k :: 0 <= k < |ops| ==> ops[k].Words()
    ensures Init(heapBase, heapSize).segs[0].Valid() && Inv(Init(heapBase, heapSize))
    ensures var t := Run(Init(heapBase, heapSize), ops);
            && (forall k, l :: 0 <= k < l < |t.regions| ==> Apart(t.regions[k], t.regions[l]))
            && (forall k :: 0 <= k < |t.regions| ==> Placed(t.segs, t.regions[k]))
            && (forall i :: 0 <= i < |t.segs| ==> t.segs[i].next - t.segs[i].base + t.segs[i].rem == t.segs[i].tot)
            && (forall i, j :: 0 <= i < j < |t.segs| ==> t.segs[i].End() <= t.segs[j].base)
            && t.Heap().base == heapBase && t.Heap().tot == heapSize
  {
    assert Inv(Init(heapBase, heapSize));
    var t := Run(Init(heapBase, heapSize), ops);
    forall i | 0 <= i < |t.segs| ensures t.segs[i].next - t.segs[i].base + t.segs[i].rem == t.segs[i].tot {
      assert t.segs[i].Valid();
    }
  }
}
