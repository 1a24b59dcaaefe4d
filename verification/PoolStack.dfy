/**
 * The free stack of a memory pool (lib_mem.c): what Mem_PoolBlkGet() and Mem_PoolBlkFree() do to a
 * configured pool, and what every run of them keeps.
 */
module PoolStack {
  import opened Arith
  import opened LibErrors
  import opened SegArith
  import opened PoolBlks

  /** What a MEM_POOL_IX can count. */
  const IX_RANGE: int := 0x1_0000

  /** A MEM_POOL_IX incremented. */
  function NextIx(ix: int): (next: int)
    ensures 0 <= ix < 0x1_0000 ==> next == (ix + 1) % 0x1_0000
  {
    if ix + 1 == IX_RANGE then 0 else ix + 1
  }

  /** PoolAddrStart, PoolAddrEnd, BlkSize, BlkAlign, BlkNbr, the entries of PoolPtrs, and BlkIx. */
  datatype Pool = Pool(start: int, end: int, size: int, align: int, nbr: int, ptrs: seq<int>, ix: int) {
    predicate WellFormed() {
      && Arg(size) && Arg(align) && Stride(size, align) < U32
      && 1 <= nbr == |ptrs|
      && 0 <= ix <= nbr && ix < IX_RANGE
    }

    /** The addresses that can be handed out. */
    function Free(): seq<int>
      requires WellFormed()
    {
      ptrs[..ix]
    }

    /** Mem_PoolBlkGet() after the type check: the block (0 for NULL), the error and the pool afterwards. */
    function Get(reqd: int): (int, LibErr, Pool)
      requires WellFormed()
    {
      if reqd < 1 || reqd > size then (0, InvalidBlkSize, this)
      else if ix < 1 then (0, PoolEmpty, this)
      else if ix > nbr then (0, InvalidBlkIx, this)
      else (ptrs[ix - 1], ErrNone, this.(ix := ix - 1))
    }

    /** Mem_PoolBlkFree() after the type check. */
    function Put(a: int): (LibErr, Pool)
      requires WellFormed()
    {
      if a == 0 then (NullPtr, this)
      else if !IsValidAddr(start, end, size, align, a) then (InvalidBlkAddr, this)
      else if a in Free() then (InvalidBlkAddrInPool, this)
      else if ix >= nbr then (PoolFull, this)
      else (ErrNone, this.(ptrs := ptrs[ix := a], ix := NextIx(ix)))
    }
  }

  /** The pool that Mem_PoolCreate() configures for nbr blocks taken from address start on; BlkIx is truncated. */
  function Created(start: int, nbr: int, size: int, align: int): (p: Pool)
    requires InSpace(start, nbr, size, align)
    ensures p.WellFormed() && |p.ptrs| == p.nbr
  {
    StrideInSpace(start, nbr, size, align);
    Pool(start, PoolEnd(start, nbr, size, align), size, align, nbr,
         seq(nbr, i => BlkAddr(start, i, size, align)), nbr % IX_RANGE)
  }

  /** A pool together with the blocks that its clients hold. */
  datatype World = World(pool: Pool, held: set<int>)

  datatype Op = GetOp(size: int) | FreeOp(addr: int)

  function Step(w: World, op: Op): (w': World)
    requires w.pool.WellFormed()
    ensures w'.pool.WellFormed()
  {
    match op
    case GetOp(size) =>
      var (a, err, p) := w.pool.Get(size);
      World(p, if err == ErrNone then w.held + {a} else w.held)
    case FreeOp(addr) =>
      var (err, p) := w.pool.Put(addr);
      World(p, if err == ErrNone then w.held - {addr} else w.held)
  }

  function Run(w: World, ops: seq<Op>): (w': World)
    requires w.pool.WellFormed()
    ensures w'.pool.WellFormed()
  {
    if ops == [] then w else Step(Run(w, ops[..|ops| - 1]), ops[|ops| - 1])
  }

  /** Free and held blocks are, without overlap or repetition, the nbr blocks of the pool. */
  ghost predicate Conserved(w: World)
  {
    var p := w.pool;
    && p.WellFormed()
    && (forall i, j :: 0 <= i < j < p.ix ==> p.ptrs[i] != p.ptrs[j])
    && (forall i :: 0 <= i < p.ix ==> p.ptrs[i] !in w.held)
    && (forall a :: IsBlk(p.start, p.nbr, p.size, p.align, a) <==> a in w.held || a in p.ptrs[..p.ix])
    && p.ix + |w.held| == p.nbr
  }

  /** p is a created pool whose address test is exact. */
  ghost predicate Located(p: Pool)
  {
    && InSpace(p.start, p.nbr, p.size, p.align)
    && p.end == PoolEnd(p.start, p.nbr, p.size, p.align)
    && ExactStride(p.start, p.size, p.align)
  }

  /** And its blocks are no more than a MEM_POOL_IX can count. */
  ghost predicate Exact(p: Pool)
  {
    Located(p) && p.nbr < IX_RANGE
  }

  lemma CreatedConserved(start: int, nbr: int, size: int, align: int)
    requires InSpace(start, nbr, size, align) && nbr < IX_RANGE
    ensures Conserved(World(Created(start, nbr, size, align), {}))
  {
    var p := Created(start, nbr, size, align);
    forall i, j | 0 <= i < j < p.ix ensures p.ptrs[i] != p.ptrs[j] {
      BlksApart(start, i, j, size, align);
    }
    forall a | IsBlk(start, nbr, size, align, a) ensures a in p.ptrs[..p.ix] {
      var i :| 0 <= i < nbr && a == BlkAddr(start, i, size, align);
      assert p.ptrs[..p.ix][i] == a;
    }
  }

  /**
   * What a conserved pool answers: a get of an admissible size fails only when every block is held,
   * and never hands out a held block; a free succeeds exactly for the held blocks, and tells blocks that are free
   * already from addresses of no block. The errors for a full pool and for a corrupt index do not occur.
   */
  lemma ConservedAnswers(w: World, size: int, addr: int)
    requires Conserved(w) && Exact(w.pool)
    ensures var (a, err, _) := w.pool.Get(size);
            && (err == InvalidBlkSize <==> !(1 <= size <= w.pool.size))
            && (err == PoolEmpty <==> 1 <= size <= w.pool.size && |w.held| == w.pool.nbr)
            && (err == ErrNone <==> 1 <= size <= w.pool.size && |w.held| < w.pool.nbr)
            && (err == ErrNone ==> a !in w.held && IsBlk(w.pool.start, w.pool.nbr, w.pool.size, w.pool.align, a))
    ensures var (err, _) := w.pool.Put(addr);
            && (err == ErrNone <==> addr in w.held)
            && (err == NullPtr <==> addr == 0)
            && (err == InvalidBlkAddrInPool <==>
                  IsBlk(w.pool.start, w.pool.nbr, w.pool.size, w.pool.align, addr) && addr !in w.held)
            && (err == InvalidBlkAddr <==>
                  addr != 0 && !IsBlk(w.pool.start, w.pool.nbr, w.pool.size, w.pool.align, addr))
  {
    var p := w.pool;
    NoBlkAtZero(p.start, p.nbr, p.size, p.align);
    IsValidAddrExactIff(p.start, p.nbr, p.size, p.align);
    var (a, err, _) := p.Get(size);
    if err == ErrNone { assert p.ptrs[..p.ix][p.ix - 1] == a; }
    if addr in w.held {
      assert IsBlk(p.start, p.nbr, p.size, p.align, addr);
      NoBlkAtZero(p.start, p.nbr, p.size, p.align);
      assert addr !in p.Free();
    }
    if p.ix == p.nbr { assert w.held == {}; }
  }

  lemma NoBlkAtZero(start: int, nbr: int, size: int, align: int)
    requires InSpace(start, nbr, size, align)
    ensures !IsBlk(start, nbr, size, align, 0)
  {
    forall i | 0 <= i < nbr ensures BlkAddr(start, i, size, align) != 0 {
      BlksInRange(start, nbr, size, align, i);
    }
  }

  lemma PopConserves(w: World)
    requires Conserved(w) && w.pool.ix >= 1
    ensures var p := w.pool;
            Conserved(World(p.(ix := p.ix - 1), w.held + {p.ptrs[p.ix - 1]}))
  {
    hide IsBlk, Stride;
    var p := w.pool;
    assert p.ptrs[..p.ix] == p.ptrs[..p.ix - 1] + [p.ptrs[p.ix - 1]];
  }

  lemma PushConserves(w: World, a: int)
    requires Conserved(w) && a in w.held && w.pool.ix < w.pool.nbr < IX_RANGE
    ensures var p := w.pool;
            Conserved(World(p.(ptrs := p.ptrs[p.ix := a], ix := p.ix + 1), w.held - {a}))
  {
    hide IsBlk, Stride;
    var p := w.pool;
    var ptrs := p.ptrs[p.ix := a];
    assert ptrs[..p.ix + 1] == p.ptrs[..p.ix] + [a];
  }

  lemma StepConserves(w: World, op: Op)
    requires Conserved(w) && Exact(w.pool)
    ensures Conserved(Step(w, op)) && Exact(Step(w, op).pool)
  {
    hide Conserved, IsBlk, IsValidAddr, InSpace, ExactStride, PoolEnd, Stride;
    ConservedIsWellFormed(w);
    match op
    case GetOp(size) =>
      ConservedAnswers(w, size, 0);
      if w.pool.Get(size).1 == ErrNone { PopConserves(w); }
    case FreeOp(addr) =>
      ConservedAnswers(w, 1, addr);
      if w.pool.Put(addr).0 == ErrNone { PushConserves(w, addr); }
  }

  lemma ConservedIsWellFormed(w: World)
    requires Conserved(w)
    ensures w.pool.WellFormed()
  {}

  lemma {:induction false} RunConserves(w: World, ops: seq<Op>)
    requires Conserved(w) && Exact(w.pool)
    ensures Conserved(Run(w, ops)) && Exact(Run(w, ops).pool)
  {
    if ops != [] {
      RunConserves(w, ops[..|ops| - 1]);
      StepConserves(Run(w, ops[..|ops| - 1]), ops[|ops| - 1]);
    }
  }

  /**
   * Every run of gets and frees on a created pool conserves its blocks if and only if the pool's
   * stride is exact and it has no more blocks than a MEM_POOL_IX can count.
   */
  lemma ConservationIff(start: int, nbr: int, size: int, align: int)
    requires InSpace(start, nbr, size, align)
    ensures (forall ops :: Conserved(Run(World(Created(start, nbr, size, align), {}), ops)))
            <==> ExactStride(start, size, align) && nbr < 0x1_0000
  {
    hide Conserved, Exact, IsBlk, Stride;
    var w := World(Created(start, nbr, size, align), {});
    CreatedIs(start, nbr, size, align);
    if nbr >= IX_RANGE {
      assert Run(w, []) == w;
    } else if ExactStride(start, size, align) {
      forall ops ensures Conserved(Run(w, ops)) { RunConserves(w, ops); }
    } else {
      InexactSpoils(start, nbr, size, align);
    }
  }

  lemma CreatedIs(start: int, nbr: int, size: int, align: int)
    requires InSpace(start, nbr, size, align)
    ensures var w := World(Created(start, nbr, size, align), {});
            && (Conserved(w) <==> nbr < IX_RANGE)
            && (Exact(w.pool) <==> ExactStride(start, size, align) && nbr < IX_RANGE)
  {
    if nbr < IX_RANGE { CreatedConserved(start, nbr, size, align); }
  }

  lemma InexactSpoils(start: int, nbr: int, size: int, align: int)
    requires InSpace(start, nbr, size, align) && !ExactStride(start, size, align) && nbr < IX_RANGE
    ensures exists ops :: !Conserved(Run(World(Created(start, nbr, size, align), {}), ops))
  {
    hide Conserved, Run;
    CreatedConserved(start, nbr, size, align);
    GapAccepted(start, nbr, size, align);
    ForeignFree(World(Created(start, nbr, size, align), {}),
                start + AlignOffset(start, align) - U32 % Stride(size, align));
  }

  /**
   * Ten blocks of 3 octets aligned to 3: after one get, freeing the pool's start leaves an address that is no block to
   * be handed out.
   */
  lemma NotConservedExample()
    ensures InSpace(0x2000_0000, 10, 3, 3)
    ensures !Conserved(Run(World(Created(0x2000_0000, 10, 3, 3), {}), [GetOp(1), FreeOp(0x2000_0000)]))
  {
    InexactStrideExample();
    CreatedConserved(0x2000_0000, 10, 3, 3);
    ForeignFree(World(Created(0x2000_0000, 10, 3, 3), {}), 0x2000_0000);
  }

  /** Taking one block and freeing an accepted address that is no block leaves that address on the free stack. */
  lemma ForeignFree(w: World, a: int)
    requires Conserved(w) && w.pool.ix == w.pool.nbr && a != 0
    requires IsValidAddr(w.pool.start, w.pool.end, w.pool.size, w.pool.align, a)
    requires !IsBlk(w.pool.start, w.pool.nbr, w.pool.size, w.pool.align, a)
    ensures !Conserved(Run(w, [GetOp(1), FreeOp(a)]))
  {
    hide IsValidAddr, IsBlk, Stride;
    var ops := [GetOp(1), FreeOp(a)];
    assert ops[..1] == [GetOp(1)] && ops[..1][..0] == [];
    var w1 := Step(w, GetOp(1));
    assert Run(w, ops[..1]) == Step(Run(w, []), GetOp(1)) == w1;
    var p := w1.pool;
    assert forall i :: 0 <= i < p.ix ==> p.ptrs[i] == w.pool.ptrs[..w.pool.ix][i];
    var p' := Step(w1, FreeOp(a)).pool;
    assert Run(w, ops) == Step(w1, FreeOp(a));
    assert p'.ptrs[..p'.ix][p.ix] == a;
  }

  // ----- the order of the blocks -----

  /** The block freed last is the one handed out next, and the pool is then as it was. */
  lemma FreeThenGet(w: World, a: int, size: int)
    requires Conserved(w) && Exact(w.pool) && a in w.held && 1 <= size <= w.pool.size
    ensures var (err, p) := w.pool.Put(a);
            && err == ErrNone && p.WellFormed() && p.Get(size).0 == a && p.Get(size).1 == ErrNone
            && p.Get(size).2.Free() == w.pool.Free()
  {
    hide Stride, IsBlk, IsValidAddr, Conserved, InSpace, ExactStride;
    ConservedAnswers(w, size, a);
    ConservedIsWellFormed(w);
    HeldHasRoom(w, a);
    StepConserves(w, FreeOp(a));
    ConservedIsWellFormed(Step(w, FreeOp(a)));
  }

  lemma HeldHasRoom(w: World, a: int)
    requires Conserved(w) && a in w.held
    ensures w.pool.ix < w.pool.nbr
  {}

  function Gets(size: int, n: nat): seq<Op> { seq(n, i => GetOp(size)) }

  /** A new pool hands out its blocks from the last one down. */
  lemma {:induction false} NewPoolGets(start: int, nbr: int, size: int, align: int, n: nat)
    requires InSpace(start, nbr, size, align) && n < nbr < 0x1_0000
    ensures var p := Run(World(Created(start, nbr, size, align), {}), Gets(size, n)).pool;
            p.Get(size).0 == BlkAddr(start, nbr - 1 - n, size, align) && p.Get(size).1 == ErrNone
  {
    hide BlkAddr;
    NewPoolAfter(start, nbr, size, align, n);
  }

  lemma {:induction false} NewPoolAfter(start: int, nbr: int, size: int, align: int, n: nat)
    requires InSpace(start, nbr, size, align) && n <= nbr < 0x1_0000
    ensures var p := Created(start, nbr, size, align);
            Run(World(p, {}), Gets(size, n)).pool == p.(ix := nbr - n)
  {
    hide BlkAddr, IsValidAddr, Stride, Created, InSpace;
    CreatedFields(start, nbr, size, align);
    if n > 0 {
      NewPoolAfter(start, nbr, size, align, n - 1);
      assert Gets(size, n)[..n - 1] == Gets(size, n - 1);
    }
  }

  lemma CreatedFields(start: int, nbr: int, size: int, align: int)
    requires InSpace(start, nbr, size, align) && nbr < IX_RANGE
    ensures Created(start, nbr, size, align).size == size >= 1 && Created(start, nbr, size, align).ix == nbr
  {}

  // ----- any number of blocks -----

  /** Free and held addresses are blocks of the pool, without overlap or repetition; some blocks may be lost. */
  ghost predicate Sound(w: World)
  {
    var p := w.pool;
    && p.WellFormed()
    && (forall i, j :: 0 <= i < j < p.ix ==> p.ptrs[i] != p.ptrs[j])
    && (forall i :: 0 <= i < p.ix ==> p.ptrs[i] !in w.held)
    && (forall a :: a in w.held || a in p.ptrs[..p.ix] ==> IsBlk(p.start, p.nbr, p.size, p.align, a))
  }

  lemma CreatedSound(start: int, nbr: int, size: int, align: int)
    requires InSpace(start, nbr, size, align)
    ensures Sound(World(Created(start, nbr, size, align), {}))
  {
    var p := Created(start, nbr, size, align);
    forall i, j | 0 <= i < j < p.ix ensures p.ptrs[i] != p.ptrs[j] {
      BlksApart(start, i, j, size, align);
    }
    forall a | a in p.ptrs[..p.ix] ensures IsBlk(start, nbr, size, align, a) {
      var i :| 0 <= i < p.ix && a == p.ptrs[..p.ix][i];
      assert a == BlkAddr(start, i, size, align);
    }
  }

  lemma PopSound(w: World)
    requires Sound(w) && w.pool.ix >= 1
    ensures var p := w.pool;
            && p.ptrs[p.ix - 1] !in w.held && IsBlk(p.start, p.nbr, p.size, p.align, p.ptrs[p.ix - 1])
            && Sound(World(p.(ix := p.ix - 1), w.held + {p.ptrs[p.ix - 1]}))
  {
    hide IsBlk, Stride;
    var p := w.pool;
    assert p.ptrs[..p.ix] == p.ptrs[..p.ix - 1] + [p.ptrs[p.ix - 1]];
  }

  lemma PushSound(w: World, a: int)
    requires Sound(w) && w.pool.ix < w.pool.nbr && a !in w.pool.Free()
    requires IsBlk(w.pool.start, w.pool.nbr, w.pool.size, w.pool.align, a)
    ensures var p := w.pool;
            Sound(World(p.(ptrs := p.ptrs[p.ix := a], ix := NextIx(p.ix)), w.held - {a}))
  {
    hide IsBlk, Stride;
    var p := w.pool;
    var ptrs := p.ptrs[p.ix := a];
    assert forall i :: 0 <= i < p.ix ==> p.ptrs[i] == p.Free()[i];
    if p.ix + 1 < IX_RANGE { assert ptrs[..p.ix + 1] == p.ptrs[..p.ix] + [a]; }
  }

  /**
   * Where the address test is exact, gets and frees keep free and held blocks blocks of the pool and apart, for any
   * number of blocks: a get never hands out what is held.
   */
  lemma StepSound(w: World, op: Op)
    requires Sound(w) && Located(w.pool)
    ensures Sound(Step(w, op)) && Located(Step(w, op).pool)
    ensures op.GetOp? ==> var (a, err, _) := w.pool.Get(op.size);
              err == ErrNone ==> a !in w.held && IsBlk(w.pool.start, w.pool.nbr, w.pool.size, w.pool.align, a)
  {
    hide Sound, IsBlk, InSpace, ExactStride, PoolEnd, Stride, IsValidAddr;
    SoundIsWellFormed(w);
    var p := w.pool;
    match op
    case GetOp(size) => if p.Get(size).1 == ErrNone { PopSound(w); }
    case FreeOp(addr) =>
      IsValidAddrExactIff(p.start, p.nbr, p.size, p.align);
      if p.Put(addr).0 == ErrNone { PushSound(w, addr); }
  }

  lemma SoundIsWellFormed(w: World)
    requires Sound(w)
    ensures w.pool.WellFormed()
  {}
}
