/**
 * The allocator as a whole (lib_mem.c): runs of heap allocations, pool creations, gets and frees on all the pools
 * created, and what is then in use.
 */
module AllocRuns {
  import opened Arith
  import opened LibErrors
  import opened SegArith
  import opened PoolBlks
  import opened MemTable
  import opened MemTableProps
  import opened PoolCreation
  import Stack = PoolStack

  /**
   * A created pool with the blocks held of it. Its first block is region number first, behind its pointer table; exact
   * tells whether gets and frees keep to its blocks.
   */
  datatype Client = Client(w: Stack.World, first: nat, exact: bool)

  /** The table, the numbers of the regions that are heap blocks, and the pools in the order of their creation. */
  datatype Sys = Sys(t: Table, blks: seq<nat>, clients: seq<Client>)

  datatype Call =
    | AllocOp(size: int, align: int)
    | CreateOp(a: Args)
    | GetOp(k: nat, size: int)
    | FreeOp(k: nat, addr: int)
  {
    /** 32-bit arguments. */
    predicate Words() {
      match this
      case AllocOp(size, align) => 0 <= size < U32 && 0 <= align < U32
      case CreateOp(a) => a.Words()
      case _ => true
    }
  }

  /** The pool's blocks, as configured, are the regions handed out for it. */
  ghost predicate Mapped(t: Table, c: Client)
    requires Stack.Located(c.w.pool) && c.first + c.w.pool.nbr <= |t.regions|
  {
    var p := c.w.pool;
    forall i :: 0 <= i < p.nbr ==>
      t.regions[c.first + i] == Region(BlkAddr(p.start, i, p.size, p.align), p.size, p.align)
  }

  ghost predicate Backed(t: Table, c: Client)
  {
    && c.w.pool.WellFormed() && 1 <= c.first && c.first + c.w.pool.nbr <= |t.regions|
    && (c.exact ==> Stack.Sound(c.w) && Stack.Located(c.w.pool) && Mapped(t, c))
  }

  /** Region number i belongs to the pool: its pointer table or one of its blocks. */
  predicate Owns(c: Client, i: int) { c.first - 1 <= i < c.first + c.w.pool.nbr }

  ghost predicate InOrder(s: Sys)
  {
    && (forall j :: 0 <= j < |s.blks| ==> s.blks[j] < |s.t.regions|)
    && (forall j, j' :: 0 <= j < j' < |s.blks| ==> s.blks[j] != s.blks[j'])
    && (forall k, k' :: 0 <= k < k' < |s.clients| ==>
          s.clients[k].first + s.clients[k].w.pool.nbr < s.clients[k'].first)
    && (forall j, k :: 0 <= j < |s.blks| && 0 <= k < |s.clients| ==> !Owns(s.clients[k], s.blks[j]))
  }

  ghost predicate SysInv(s: Sys)
  {
    && Inv(s.t)
    && InOrder(s)
    && forall k :: 0 <= k < |s.clients| ==> Backed(s.t, s.clients[k])
  }

  /**
   * Told before the call: the pool's stride is exact where it comes to lie, its pointer table can hold its blocks, and
   * the heap itself is not passed as dedicated memory. PoolStack.ConservationIff, PoolCreation.PtrsHoldBlksIff and
   * PoolCreation.PoolRangeIff show what goes wrong otherwise.
   */
  predicate Proper(t: Table, a: Args)
    requires t.Valid() && a.Words()
  {
    && OwnSegment(t, a) && Place(t, a).In? && PtrsOk(a.nbr) && Arg(a.size) && Arg(a.align)
    && ExactStride(BlksSeg(Place(t, a), a).next, a.size, a.align) && a.nbr < 0x4000_0000
  }

  ghost function PoolStep(c: Client, op: Stack.Op): Client
    requires c.w.pool.WellFormed()
  {
    c.(w := Stack.Step(c.w, op))
  }

  ghost function NewClient(t: Table, a: Args): Client
    requires t.Valid() && a.Words()
  {
    Client(Stack.World(Configured(Create(t, a).0, a), {}), |t.regions| + 1, Proper(t, a))
  }

  ghost function Step(s: Sys, op: Call): Sys
    requires SysInv(s) && op.Words()
  {
    match op
    case AllocOp(size, align) =>
      var (res, t) := HeapAlloc(s.t, size, align);
      Sys(t, if res.err == ErrNone then s.blks + [|s.t.regions|] else s.blks, s.clients)
    case CreateOp(a) =>
      var (res, t) := Create(s.t, a);
      Sys(t, s.blks, if res.err == ErrNone
                     then s.clients + [NewClient(s.t, a)] else s.clients)
    case GetOp(k, size) =>
      if k < |s.clients| then s.(clients := s.clients[k := PoolStep(s.clients[k], Stack.GetOp(size))]) else s
    case FreeOp(k, addr) =>
      if k < |s.clients| then s.(clients := s.clients[k := PoolStep(s.clients[k], Stack.FreeOp(addr))]) else s
  }

  // ----- each step -----

  /** Regions are only ever added. */
  lemma BackedByMore(t: Table, t': Table, c: Client)
    requires Backed(t, c) && t.regions <= t'.regions
    ensures Backed(t', c)
  {
    hide Stack.Sound, Stack.Located, BlkAddr;
  }

  lemma HeapStepKeeps(s: Sys, size: int, align: int)
    requires SysInv(s) && 0 <= size < U32 && 0 <= align < U32
    ensures SysInv(Step(s, AllocOp(size, align))) && SameHeap(s.t, Step(s, AllocOp(size, align)).t)
  {
    hide Inv, Backed, HeapAlloc;
    HeapAllocKeeps(s.t, size, align);
    HeapAllocOutcome(s.t, size, align);
    var s' := Step(s, AllocOp(size, align));
    forall k | 0 <= k < |s.clients| ensures Backed(s'.t, s.clients[k]) {
      BackedByMore(s.t, s'.t, s.clients[k]);
    }
    BackedInRange(s);
  }

  lemma BackedInRange(s: Sys)
    requires forall k :: 0 <= k < |s.clients| ==> Backed(s.t, s.clients[k])
    ensures forall k :: 0 <= k < |s.clients| ==>
              s.clients[k].w.pool.nbr >= 1 && s.clients[k].first + s.clients[k].w.pool.nbr <= |s.t.regions|
  {
    hide Stack.Sound;
    forall k | 0 <= k < |s.clients|
      ensures s.clients[k].w.pool.nbr >= 1 && s.clients[k].first + s.clients[k].w.pool.nbr <= |s.t.regions|
    {
      assert Backed(s.t, s.clients[k]);
    }
  }

  lemma NewClientBacked(t: Table, a: Args)
    requires Inv(t) && a.Words() && Create(t, a).0.err == ErrNone
    ensures Backed(Create(t, a).1, NewClient(t, a))
    ensures |Create(t, a).1.regions| == |t.regions| + 1 + a.nbr && NewClient(t, a).w.pool.nbr == a.nbr >= 1
  {
    hide Create, Place, OwnSegment, InSpace, BlksSeg, ExactStride, Stack.Sound, Stride, BlkAddr;
    ConfiguredWellFormed(t, a);
    CreateGives(t, a);
    if Proper(t, a) {
      CreatedPool(t, a);
      PoolRangeIff(t, a);
      Stack.CreatedSound(Create(t, a).0.start, a.nbr, a.size, a.align);
    }
  }

  lemma CreateStepKeeps(s: Sys, a: Args)
    requires SysInv(s) && a.Words()
    ensures SysInv(Step(s, CreateOp(a))) && SameHeap(s.t, Step(s, CreateOp(a)).t)
  {
    hide Sorted, AllPlaced, PairwiseApart, Backed, Create, NewClient;
    CreateKeeps(s.t, a);
    var s' := Step(s, CreateOp(a));
    forall k | 0 <= k < |s.clients| ensures Backed(s'.t, s.clients[k]) {
      BackedByMore(s.t, s'.t, s.clients[k]);
    }
    BackedInRange(s);
    if Create(s.t, a).0.err == ErrNone {
      NewClientBacked(s.t, a);
      FirstOfNew(s.t, a);
    }
  }

  lemma FirstOfNew(t: Table, a: Args)
    requires t.Valid() && a.Words()
    ensures NewClient(t, a).first == |t.regions| + 1
  {}

  lemma ClientStepKeeps(s: Sys, k: nat, op: Stack.Op)
    requires SysInv(s) && k < |s.clients|
    ensures s.clients[k].w.pool.WellFormed()
    ensures SysInv(s.(clients := s.clients[k := PoolStep(s.clients[k], op)]))
  {
    hide Inv, Stack.Located, Stack.Sound, Stack.Step;
    assert Backed(s.t, s.clients[k]);
    ClientStepBacked(s.t, s.clients[k], op);
    var s' := s.(clients := s.clients[k := PoolStep(s.clients[k], op)]);
    forall l | 0 <= l < |s'.clients| ensures Backed(s'.t, s'.clients[l]) {
      assert Backed(s.t, s.clients[l]);
    }
  }

  lemma ClientStepBacked(t: Table, c: Client, op: Stack.Op)
    requires Backed(t, c)
    ensures c.w.pool.WellFormed()
    ensures Backed(t, PoolStep(c, op)) && PoolStep(c, op).w.pool.nbr == c.w.pool.nbr
  {
    hide BlkAddr, Stack.Sound, Stack.Located, Stack.Step;
    PoolStays(c.w, op);
    if c.exact { Stack.StepSound(c.w, op); }
  }

  /** Gets and frees do not change where a pool is and what it consists of. */
  lemma PoolStays(w: Stack.World, op: Stack.Op)
    requires w.pool.WellFormed()
    ensures var p, p' := w.pool, Stack.Step(w, op).pool;
            p'.start == p.start && p'.end == p.end && p'.size == p.size && p'.align == p.align && p'.nbr == p.nbr
  {
    hide IsValidAddr, Stride;
  }

  // ----- every run -----

  /** The state after a run of allocations, creations, gets and frees, successful or not. */
  ghost function Run(heapBase: int, heapSize: int, ops: seq<Call>): (s: Sys)
    requires 1 <= heapBase && 1 <= heapSize && heapBase + heapSize <= U32
    requires forall k :: 0 <= k < |ops| ==> ops[k].Words()
    ensures SysInv(s)
  {
    if ops == [] then
      InitInv(heapBase, heapSize);
      Sys(Init(heapBase, heapSize), [], [])
    else
      hide SysInv;
      var s, op := Run(heapBase, heapSize, ops[..|ops| - 1]), ops[|ops| - 1];
      StepKeeps(s, op);
      Step(s, op)
  }

  lemma StepKeeps(s: Sys, op: Call)
    requires SysInv(s) && op.Words()
    ensures SysInv(Step(s, op))
  {
    match op
    case AllocOp(size, align) => HeapStepKeeps(s, size, align);
    case CreateOp(a) => CreateStepKeeps(s, a);
    case GetOp(k, size) => if k < |s.clients| { ClientStepKeeps(s, k, Stack.GetOp(size)); }
    case FreeOp(k, addr) => if k < |s.clients| { ClientStepKeeps(s, k, Stack.FreeOp(addr)); }
  }

  // ----- what is in use -----

  /** Memory in use: the j-th heap block, the pointer table of pool k, or a block held of pool k, if that is exact. */
  datatype Lease = HeapBlk(j: nat) | Ptrs(k: nat) | PoolBlk(k: nat, addr: int)

  predicate Leased(s: Sys, l: Lease)
  {
    match l
    case HeapBlk(j) => j < |s.blks|
    case Ptrs(k) => k < |s.clients|
    case PoolBlk(k, addr) => k < |s.clients| && s.clients[k].exact && addr in s.clients[k].w.held
  }

  ghost function RegionOf(s: Sys, l: Lease): Region
    requires SysInv(s) && Leased(s, l)
  {
    match l
    case HeapBlk(j) => s.t.regions[s.blks[j]]
    case Ptrs(k) => assert Backed(s.t, s.clients[k]); s.t.regions[s.clients[k].first - 1]
    case PoolBlk(k, addr) => Region(addr, s.clients[k].w.pool.size, s.clients[k].w.pool.align)
  }

  /** Region number i is where l is found. */
  predicate Numbered(s: Sys, l: Lease, i: int)
    requires Leased(s, l)
  {
    match l
    case HeapBlk(j) => i == s.blks[j]
    case Ptrs(k) => i == s.clients[k].first - 1
    case PoolBlk(k, _) => s.clients[k].first <= i < s.clients[k].first + s.clients[k].w.pool.nbr
  }

  /** The number of the region in use. */
  lemma RegionNumber(s: Sys, l: Lease) returns (i: nat)
    requires SysInv(s) && Leased(s, l)
    ensures i < |s.t.regions| && s.t.regions[i] == RegionOf(s, l)
    ensures Numbered(s, l, i)
  {
    hide BlkAddr, Inv;
    match l
    case HeapBlk(j) => i := s.blks[j];
    case Ptrs(k) =>
      assert Backed(s.t, s.clients[k]);
      i := s.clients[k].first - 1;
    case PoolBlk(k, addr) =>
      assert Backed(s.t, s.clients[k]);
      var p := s.clients[k].w.pool;
      assert IsBlk(p.start, p.nbr, p.size, p.align, addr);
      var b: nat :| b < p.nbr && addr == BlkAddr(p.start, b, p.size, p.align);
      i := s.clients[k].first + b;
  }

  /**
   * Over every run: whatever is in use -- heap blocks, pointer tables, and blocks held of all exact pools -- is
   * aligned, lies in a segment of the table, and shares no octet with anything else in use, whatever other pools
   * there are.
   */
  lemma InUseApart(heapBase: int, heapSize: int, ops: seq<Call>, l: Lease, l': Lease)
    requires 1 <= heapBase && 1 <= heapSize && heapBase + heapSize <= U32
    requires forall k :: 0 <= k < |ops| ==> ops[k].Words()
    requires Leased(Run(heapBase, heapSize, ops), l) && Leased(Run(heapBase, heapSize, ops), l')
    ensures var s := Run(heapBase, heapSize, ops);
            && Placed(s.t.segs, RegionOf(s, l))
            && (l != l' ==> Apart(RegionOf(s, l), RegionOf(s, l')))
  {
    hide Run, Backed, RegionOf, Placed;
    var s := Run(heapBase, heapSize, ops);
    var i := RegionNumber(s, l);
    var i' := RegionNumber(s, l');
    if i == i' { SameLease(s, l, l', i); }
  }

  /** A region is in use once. */
  lemma SameLease(s: Sys, l: Lease, l': Lease, i: nat)
    requires SysInv(s) && Leased(s, l) && Leased(s, l')
    requires i < |s.t.regions| && s.t.regions[i] == RegionOf(s, l) == RegionOf(s, l')
    requires Numbered(s, l, i) && Numbered(s, l', i)
    ensures l == l'
  {
    hide Backed, Inv;
    BackedInRange(s);
    match (l, l')
    case (PoolBlk(k, addr), PoolBlk(k', addr')) =>
      assert addr == addr' && !(k < k') && !(k' < k);
    case _ =>
  }

  /**
   * What is in use follows the calls: a successful allocation, get or creation puts what it returned in use, and a
   * successful free takes its block out of use.
   */
  lemma LeasesFollow(s: Sys, op: Call)
    requires SysInv(s) && op.Words()
    ensures SysInv(Step(s, op))
    ensures var s' := Step(s, op);
            match op
            case AllocOp(size, align) =>
              var res := HeapAlloc(s.t, size, align).0;
              res.err == ErrNone ==>
                && Leased(s', HeapBlk(|s.blks|))
                && RegionOf(s', HeapBlk(|s.blks|)) == Region(res.blk, size, align)
            case CreateOp(a) =>
              var res := Create(s.t, a).0;
              res.err == ErrNone ==>
                && Leased(s', Ptrs(|s.clients|)) && RegionOf(s', Ptrs(|s.clients|)).addr == res.ptrs
                && s'.clients[|s.clients|].w.pool.ptrs == res.blks && s'.clients[|s.clients|].w.held == {}
            case GetOp(k, size) =>
              k < |s.clients| ==>
                && s.clients[k].w.pool.WellFormed()
                && var (a, err, _) := s.clients[k].w.pool.Get(size);
                (err == ErrNone && s.clients[k].exact ==> Leased(s', PoolBlk(k, a)))
            case FreeOp(k, addr) =>
              k < |s.clients| ==>
                && s.clients[k].w.pool.WellFormed()
                && (s.clients[k].w.pool.Put(addr).0 == ErrNone ==> !Leased(s', PoolBlk(k, addr)))
  {
    hide Create, HeapAlloc, Inv, Backed, InOrder, IsValidAddr, Stride, Stack.Sound, Stack.Located;
    StepKeepsAny(s, op);
    match op
    case AllocOp(size, align) => if HeapAlloc(s.t, size, align).0.err == ErrNone { AllocHands(s, size, align); }
    case CreateOp(a) => if Create(s.t, a).0.err == ErrNone { CreateHands(s, a); }
    case GetOp(k, size) => if k < |s.clients| { ClientFormed(s, k); }
    case FreeOp(k, addr) => if k < |s.clients| { ClientFormed(s, k); }
  }

  lemma StepKeepsAny(s: Sys, op: Call)
    requires SysInv(s) && op.Words()
    ensures SysInv(Step(s, op)) && s.t.Valid()
  {
    StepKeeps(s, op);
  }

  lemma ClientFormed(s: Sys, k: nat)
    requires SysInv(s) && k < |s.clients|
    ensures s.clients[k].w.pool.WellFormed()
  {
    assert Backed(s.t, s.clients[k]);
  }

  lemma AllocHands(s: Sys, size: int, align: int)
    requires SysInv(s) && 0 <= size < U32 && 0 <= align < U32 && HeapAlloc(s.t, size, align).0.err == ErrNone
    ensures var s' := Step(s, AllocOp(size, align));
            && |s'.blks| == |s.blks| + 1 && s'.blks[|s.blks|] < |s'.t.regions|
            && s'.t.regions[s'.blks[|s.blks|]] == Region(HeapAlloc(s.t, size, align).0.blk, size, align)
  {
    hide HeapAlloc;
    HeapAllocOutcome(s.t, size, align);
  }

  lemma CreateHands(s: Sys, a: Args)
    requires SysInv(s) && a.Words() && Create(s.t, a).0.err == ErrNone
    ensures var s', res := Step(s, CreateOp(a)), Create(s.t, a).0;
            && |s'.clients| == |s.clients| + 1 && s'.clients[|s.clients|].first == |s.t.regions| + 1
            && |s.t.regions| < |s'.t.regions| && s'.t.regions[|s.t.regions|].addr == res.ptrs
            && s'.clients[|s.clients|].w.pool.ptrs == res.blks && s'.clients[|s.clients|].w.held == {}
  {
    hide Create, Proper;
    CreateGives(s.t, a);
  }
}
