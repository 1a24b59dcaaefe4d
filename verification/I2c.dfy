/**
 * The interrupt-driven I2C master driver (bsp_i2c.c), one controller. A transfer record is shared by the code that
 * starts transfers and by two interrupt handlers; status flags and received octets are whatever the bus supplies.
 */
module I2c {
  datatype State = Idle | Start | Addr | Data | Stop

  datatype Access = NoAccess | Rd | Wr | WrRd

  /** The flags of status register 1 that the event handler looks at. */
  datatype Flags = Flags(sb: bool, addr: bool, btf: bool, rxne: bool, txe: bool)

  /** An access to the data register. */
  datatype DrOp = Sent(v: int) | Received(v: int)

  /**
   * BSP_I2C_DEV_STATUS with the buffer's contents, BufPtr as an index into it, and whether the interrupts are enabled.
   */
  datatype Dev = Dev(access: Access, addr: int, state: State, buf: seq<int>, ptr: int, len: int, irqEn: bool)

  function RdAddr(addr: int): int { addr * 2 + 1 }
  function WrAddr(addr: int): int { addr * 2 % 0x100 }

  // ----- what every run keeps -----

  /** How many octets may be left in each state and access type of a transfer of n octets. */
  predicate LenOk(state: State, access: Access, len: int, n: int) {
    match (state, access)
    case (Idle, NoAccess) => 0 <= len <= n
    case (Start, Rd) => 1 <= len <= n
    case (Start, Wr) => 1 <= len == n
    case (Start, WrRd) => 2 <= len == n
    case (Addr, Rd) => 1 <= len <= n
    case (Addr, Wr) => 1 <= len == n
    case (Addr, WrRd) => 2 <= len == n
    case (Data, Rd) => 2 <= len <= n
    case (Data, Wr) => 1 <= len < n
    case (Data, WrRd) => 1 <= len == n - 1
    case (Stop, Rd) => len == 1 <= n
    case (Stop, Wr) => len == 0 < n
    case _ => false
  }

  /** The pointer has advanced by exactly the octets gone, and the interrupts are enabled exactly during a transfer. */
  predicate Inv(d: Dev) {
    && LenOk(d.state, d.access, d.len, |d.buf|)
    && d.ptr == |d.buf| - d.len
    && (d.irqEn <==> d.state != Idle)
  }

  // ----- the handlers -----

  /** What one interrupt does: the record afterwards, the data register accesses, and the completions posted. */
  datatype Outcome = Outcome(d: Dev, ops: seq<DrOp>, posts: nat)

  function Same(d: Dev): Outcome { Outcome(d, [], 0) }

  /** End of a transfer. */
  function Finish(d: Dev, ops: seq<DrOp>): Outcome
  {
    Outcome(d.(state := Idle, access := NoAccess, irqEn := false), ops, 1)
  }

  /** The next octet of the buffer is sent; there is one. */
  function SendOctet(d: Dev): Outcome
    requires 0 <= d.ptr < |d.buf| && d.len > 0
  {
    var d' := d.(ptr := d.ptr + 1, len := d.len - 1);
    Outcome(d'.(state := if d'.len == 0 then Stop else Data), [Sent(d.buf[d.ptr])], 0)
  }

  /** An octet received is stored at the next place of the buffer; there is one. */
  function StoreOctet(d: Dev, rx: int): Outcome
    requires 0 <= d.ptr < |d.buf| && d.len > 0
  {
    var d' := d.(buf := d.buf[d.ptr := rx], ptr := d.ptr + 1, len := d.len - 1);
    Outcome(d'.(state := if d'.len == 1 then Stop else d.state), [Received(rx)], 0)
  }

  /**
   * BSP_I2Cx_EventISR_Handler(). No buffer access outside the buffer and no underflow of the length, whatever the
   * flags.
   */
  function Event(d: Dev, f: Flags, rx: int): (o: Outcome)
    requires Inv(d)
    ensures Inv(o.d) && |o.d.buf| == |d.buf|
  {
    match d.state
    case Start =>
      if !f.sb then Same(d)
      else Outcome(d.(state := Addr), [Sent(if d.access == Rd then RdAddr(d.addr) else WrAddr(d.addr))], 0)
    case Addr =>
      if !f.addr then Finish(d, [])
      else if d.access == Rd then Outcome(d.(state := if d.len == 1 then Stop else Data), [], 0)
      else if f.txe then SendOctet(d)
      else Same(d)
    case Data =>
      if d.access == WrRd && f.txe then Outcome(d.(state := Start, access := Rd), [], 0)
      else if d.access == Rd && f.rxne then StoreOctet(d, rx)
      else if d.access == Wr && f.txe then SendOctet(d)
      else Same(d)
    case Stop =>
      if !f.btf then Same(d)
      else if d.access == Rd then var o := StoreOctet(d, rx); Finish(o.d, o.ops)
      else Finish(d, [])
    case Idle => Same(d)
  }

  /** BSP_I2Cx_ErrISR_Handler(). */
  function Error(d: Dev): (o: Outcome)
    requires Inv(d)
    ensures Inv(o.d) && o.d.buf == d.buf
  {
    if d.state != Idle then Finish(d, []) else Same(d)
  }

  /** The record before the first transfer. */
  function Resting(): (d: Dev)
    ensures Inv(d)
  {
    Dev(NoAccess, 0, Idle, [], 0, 0, false)
  }

  datatype Irq = EventIrq(f: Flags, rx: int) | ErrorIrq

  function Handle(d: Dev, q: Irq): (o: Outcome)
    requires Inv(d)
    ensures Inv(o.d) && |o.d.buf| == |d.buf|
  {
    match q
    case EventIrq(f, rx) => Event(d, f, rx)
    case ErrorIrq => Error(d)
  }

  /** A transfer as requested; BSP_I2C_Rd(), BSP_I2C_Wr() and BSP_I2C_WrRd() let no shorter ones through. */
  datatype Xfer = Xfer(access: Access, addr: int, buf: seq<int>) {
    predicate Valid() {
      access != NoAccess && |buf| >= (if access == WrRd then 2 else 1)
    }
  }

  /** BSP_I2C_StartXfer() up to the wait. */
  function Begin(x: Xfer): (d: Dev)
    requires x.Valid()
    ensures Inv(d) && d.state != Idle
  {
    Dev(x.access, x.addr, Start, x.buf, 0, |x.buf|, true)
  }

  // ----- what a transfer sends and receives -----

  function Sends(s: seq<int>): (ops: seq<DrOp>)
    ensures |ops| == |s| && forall i :: 0 <= i < |s| ==> ops[i] == Sent(s[i])
  {
    seq(|s|, i requires 0 <= i < |s| => Sent(s[i]))
  }

  function Receives(s: seq<int>): (ops: seq<DrOp>)
    ensures |ops| == |s| && forall i :: 0 <= i < |s| ==> ops[i] == Received(s[i])
  {
    seq(|s|, i requires 0 <= i < |s| => Received(s[i]))
  }

  /** All that passes through the data register, in order, in a complete transfer that leaves the buffer as buf. */
  function FullTrace(x: Xfer, buf: seq<int>): seq<DrOp>
    requires x.Valid() && |buf| == |x.buf|
  {
    if x.access == Wr then [Sent(WrAddr(x.addr))] + Sends(x.buf)
    else ReadHead(x) + Receives(buf[FirstRead(x)..])
  }

  /** What comes before the octets received: for a combined transfer a write of the first octet and a second address. */
  function ReadHead(x: Xfer): seq<DrOp>
    requires x.Valid()
  {
    if x.access == WrRd then [Sent(WrAddr(x.addr)), Sent(x.buf[0]), Sent(RdAddr(x.addr))] else [Sent(RdAddr(x.addr))]
  }

  /** Where the octets received go. */
  function FirstRead(x: Xfer): nat { if x.access == WrRd then 1 else 0 }

  /** What has passed at a point of an unfinished transfer. */
  function TraceSoFar(x: Xfer, d: Dev): seq<DrOp>
    requires x.Valid() && Inv(d) && |d.buf| == |x.buf|
    requires x.access == WrRd && d.access == Rd ==> d.ptr >= FirstRead(x)
  {
    if d.access == Rd then
      if d.state == Start then ReadHead(x)[..|ReadHead(x)| - 1]
      else if d.state == Addr then ReadHead(x)
      else ReadHead(x) + Receives(d.buf[FirstRead(x)..d.ptr])
    else
      if d.state == Start then []
      else if d.state == Addr then [Sent(WrAddr(x.addr))]
      else [Sent(WrAddr(x.addr))] + Sends(x.buf[..d.ptr])
  }

  /** State-changing event interrupts of a complete transfer, and how many of them are to come. */
  function TotalSteps(x: Xfer): int { |x.buf| + (if x.access == WrRd then 4 else 2) }

  function StepsToGo(d: Dev): int
  {
    match d.state
    case Idle => 0
    case Start => d.len + (if d.access == WrRd then 4 else 2)
    case Addr => d.len + (if d.access == WrRd then 3 else 1)
    case Data => d.len + (if d.access == WrRd then 3 else if d.access == Wr then 1 else 0)
    case Stop => 1
  }

  /**
   * A transfer under way: the record, what has passed, state-changing event interrupts, posts, and whether it was
   * given up.
   */
  datatype Progress = Progress(d: Dev, ops: seq<DrOp>, steps: nat, posts: nat, aborted: bool)

  /** An interrupt gives the transfer up: any error, or an address that is not acknowledged. */
  predicate GivesUp(d: Dev, q: Irq) {
    match q
    case ErrorIrq => d.state != Idle
    case EventIrq(f, _) => d.state == Addr && !f.addr
  }

  function Advance(p: Progress, q: Irq): (p': Progress)
    requires Inv(p.d)
    ensures Inv(p'.d)
  {
    var o := Handle(p.d, q);
    Progress(o.d, p.ops + o.ops, p.steps + (if q.EventIrq? && o.d != p.d then 1 else 0), p.posts + o.posts,
             p.aborted || GivesUp(p.d, q))
  }

  function Transfer(x: Xfer, qs: seq<Irq>): (p: Progress)
    requires x.Valid()
    ensures Inv(p.d)
  {
    if qs == [] then Progress(Begin(x), [], 0, 0, false)
    else Advance(Transfer(x, qs[..|qs| - 1]), qs[|qs| - 1])
  }

  /** What is known of a transfer that is not over. */
  ghost predicate Underway(x: Xfer, p: Progress)
    requires x.Valid()
  {
    var d := p.d;
    && Inv(d) && d.state != Idle && |d.buf| == |x.buf| && d.addr == x.addr
    && (d.access == x.access || (x.access == WrRd && d.access == Rd && d.ptr >= 1))
    && (d.access != Rd ==> d.buf == x.buf)
    && (d.access == Rd && (d.state == Start || d.state == Addr) ==> d.ptr == FirstRead(x))
    && (x.access == WrRd ==> d.buf[0] == x.buf[0])
    && d.buf[d.ptr..] == x.buf[d.ptr..]
    && p.ops == TraceSoFar(x, d)
    && p.steps + StepsToGo(d) == TotalSteps(x)
    && p.posts == 0 && !p.aborted
  }

  /** What is known of a transfer that is over. */
  ghost predicate Over(x: Xfer, p: Progress)
    requires x.Valid()
  {
    var d := p.d;
    && Inv(d) && d.state == Idle && |d.buf| == |x.buf|
    && p.posts == 1
    && (x.access == Wr ==> d.buf == x.buf)
    && (x.access == WrRd ==> d.buf[0] == x.buf[0])
    && d.buf[d.ptr..] == x.buf[d.ptr..]
    && (d.len == 0 ==> p.ops == FullTrace(x, d.buf))
    && (!p.aborted ==> d.len == 0 && p.steps == TotalSteps(x))
    && (p.aborted && d.len == 0 ==> x.access == Wr && p.steps == TotalSteps(x) - 1)
  }

  lemma SendsNext(head: seq<DrOp>, s: seq<int>, k: nat)
    requires k < |s|
    ensures head + Sends(s[..k + 1]) == head + Sends(s[..k]) + [Sent(s[k])]
    ensures head + Sends(s[..0]) == head
  {}

  lemma ReceivesNext(head: seq<DrOp>, s: seq<int>, rx: int, from: nat, k: nat)
    requires from <= k < |s|
    ensures head + Receives(s[k := rx][from..k + 1]) == head + Receives(s[from..k]) + [Received(rx)]
  {
    assert s[k := rx][from..k + 1] == s[from..k] + [rx];
  }

  /** How an octet comes in: in the data state, or as the last one in the stop state. */
  lemma HowStored(p: Progress, q: Irq)
    requires Inv(p.d) && p.d.access == Rd && Advance(p, q).d.ptr == p.d.ptr + 1
    ensures q.EventIrq? && p.d.state in {Data, Stop}
    ensures var d' := StoreOctet(p.d, q.rx).d;
            Advance(p, q)
            == if p.d.state == Data then p.(d := d', ops := p.ops + [Received(q.rx)], steps := p.steps + 1)
               else Progress(Finish(d', []).d, p.ops + [Received(q.rx)], p.steps + 1, p.posts + 1, p.aborted)
  {
    assert q.EventIrq?;
  }

  lemma ReadingStores(x: Xfer, p: Progress, q: Irq)
    requires x.Valid() && Underway(x, p) && p.d.access == Rd && Advance(p, q).d.ptr == p.d.ptr + 1
    ensures var p' := Advance(p, q); Underway(x, p') || Over(x, p')
  {
    hide Underway, Over, Advance;
    UnderwayHasAccess(x, p);
    HowStored(p, q);
    if p.d.state == Data { ReadingStoresOne(x, p, q); } else { ReadingStoresLast(x, p, q); }
  }

  lemma ReadingStoresOne(x: Xfer, p: Progress, q: Irq)
    requires x.Valid() && Underway(x, p) && p.d.access == Rd && p.d.state == Data
    requires Advance(p, q).d.ptr == p.d.ptr + 1
    ensures Underway(x, Advance(p, q))
  {
    hide Sends, Receives, ReadHead, RdAddr, WrAddr, FullTrace, Advance;
    HowStored(p, q);
    ReceivesNext(ReadHead(x), p.d.buf, q.rx, FirstRead(x), p.d.ptr);
  }

  lemma ReadingStoresLast(x: Xfer, p: Progress, q: Irq)
    requires x.Valid() && Underway(x, p) && p.d.access == Rd && p.d.state == Stop
    requires Advance(p, q).d.ptr == p.d.ptr + 1
    ensures Over(x, Advance(p, q))
  {
    hide Sends, Receives, ReadHead, RdAddr, WrAddr, Advance;
    HowStored(p, q);
    ReceivesNext(ReadHead(x), p.d.buf, q.rx, FirstRead(x), p.d.ptr);
    var buf' := p.d.buf[p.d.ptr := q.rx];
    assert buf'[FirstRead(x)..p.d.ptr + 1] == buf'[FirstRead(x)..];
  }

  lemma ReadingWaits(x: Xfer, p: Progress, q: Irq)
    requires x.Valid() && Underway(x, p) && p.d.access == Rd && Advance(p, q).d.ptr != p.d.ptr + 1
    ensures var p' := Advance(p, q); Underway(x, p') || Over(x, p')
  {
    hide Advance;
    if GivesUp(p.d, q) { ReadingGivesUp(x, p, q); } else { ReadingGoesOn(x, p, q); }
  }

  lemma ReadingGivesUp(x: Xfer, p: Progress, q: Irq)
    requires x.Valid() && Underway(x, p) && p.d.access == Rd && GivesUp(p.d, q)
    ensures Over(x, Advance(p, q))
  {
    hide TraceSoFar, FullTrace;
  }

  lemma ReadingGoesOn(x: Xfer, p: Progress, q: Irq)
    requires x.Valid() && Underway(x, p) && p.d.access == Rd && Advance(p, q).d.ptr != p.d.ptr + 1 && !GivesUp(p.d, q)
    ensures Underway(x, Advance(p, q))
  {
    hide Sends, Receives, RdAddr, WrAddr, ReadHead, FullTrace;
    NoneReceived();
    ReadHeadEnds(x);
    assert p.ops + [] == p.ops;
  }

  lemma NoneReceived()
    ensures Receives([]) == []
  {}

  lemma ReadHeadEnds(x: Xfer)
    requires x.Valid()
    ensures var head := ReadHead(x);
            && |head| >= 1 && head[|head| - 1] == Sent(RdAddr(x.addr))
            && head[..|head| - 1] + [Sent(RdAddr(x.addr))] == head
            && head + [] == head
  {}

  lemma WritingKeeps(x: Xfer, p: Progress, q: Irq)
    requires x.Valid() && Underway(x, p) && p.d.access == Wr
    ensures var p' := Advance(p, q); Underway(x, p') || Over(x, p')
  {
    hide Sends, Receives, RdAddr, WrAddr;
    var d, d' := p.d, Advance(p, q).d;
    if d'.ptr == d.ptr + 1 {
      SendsNext([Sent(WrAddr(x.addr))], x.buf, d.ptr);
    } else {
      assert d.ptr == |x.buf| ==> x.buf[..d.ptr] == x.buf;
    }
  }

  lemma WritingFirstKeeps(x: Xfer, p: Progress, q: Irq)
    requires x.Valid() && Underway(x, p) && p.d.access == WrRd
    ensures var p' := Advance(p, q); Underway(x, p') || Over(x, p')
  {
    hide Sends, Receives, RdAddr, WrAddr;
    SendsNext([Sent(WrAddr(x.addr))], x.buf, 0);
  }

  lemma AdvanceKeeps(x: Xfer, p: Progress, q: Irq)
    requires x.Valid() && Underway(x, p)
    ensures var p' := Advance(p, q); Underway(x, p') || Over(x, p')
  {
    hide Underway, Over, Advance;
    UnderwayHasAccess(x, p);
    match p.d.access
    case Rd => if Advance(p, q).d.ptr == p.d.ptr + 1 { ReadingStores(x, p, q); } else { ReadingWaits(x, p, q); }
    case Wr => WritingKeeps(x, p, q);
    case WrRd => WritingFirstKeeps(x, p, q);
  }

  lemma UnderwayHasAccess(x: Xfer, p: Progress)
    requires x.Valid() && Underway(x, p)
    ensures Inv(p.d) && p.d.access != NoAccess
  {}

  lemma OverAbsorbs(x: Xfer, p: Progress, q: Irq)
    requires x.Valid() && Over(x, p)
    ensures Advance(p, q) == p
  {
    assert p.ops + [] == p.ops;
  }

  lemma {:induction false} TransferKnown(x: Xfer, qs: seq<Irq>)
    requires x.Valid()
    ensures Underway(x, Transfer(x, qs)) || Over(x, Transfer(x, qs))
  {
    if qs != [] {
      TransferKnown(x, qs[..|qs| - 1]);
      var p, q := Transfer(x, qs[..|qs| - 1]), qs[|qs| - 1];
      if Underway(x, p) { AdvanceKeeps(x, p, q); } else { OverAbsorbs(x, p, q); }
    }
  }

  /**
   * Every run of a transfer, for any flags and any errors in between: when it is over, one completion has been
   * posted. If it was not given up, all octets have passed in the right order, in exactly the number of
   * state-changing event interrupts that the kind of transfer takes. Wherever no octet is left, all have
   * passed. The part of the buffer not reached is untouched.
   */
  lemma TransferCorrect(x: Xfer, qs: seq<Irq>)
    requires x.Valid()
    ensures var p := Transfer(x, qs);
            && |p.d.buf| == |x.buf| && p.d.ptr == |x.buf| - p.d.len && p.d.buf[p.d.ptr..] == x.buf[p.d.ptr..]
            && p.posts == (if p.d.state == Idle then 1 else 0)
            && (p.d.state == Idle && !p.aborted ==> p.d.len == 0 && p.steps == TotalSteps(x))
            && (p.d.len == 0 ==> p.ops == FullTrace(x, p.d.buf))
            && (x.access == Wr ==> p.d.buf == x.buf)
  {
    TransferKnown(x, qs);
    var p := Transfer(x, qs);
    if Underway(x, p) {
      UnderwayHasAccess(x, p);
      assert p.d.ptr == |x.buf| ==> x.buf[..p.d.ptr] == x.buf;
    }
  }

  /** Interrupt k gives the transfer up before it is over: it is an error, or the address is not acknowledged. */
  ghost predicate GivenUpAt(x: Xfer, qs: seq<Irq>, k: int)
    requires x.Valid() && 0 <= k < |qs|
  {
    var d := Transfer(x, qs[..k]).d;
    d.state != Idle && (qs[k].ErrorIrq? || (d.state == Addr && !qs[k].f.addr))
  }

  lemma {:induction false} GivenUpIff(x: Xfer, qs: seq<Irq>)
    requires x.Valid()
    ensures Transfer(x, qs).aborted <==> exists k :: 0 <= k < |qs| && GivenUpAt(x, qs, k)
  {
    if qs != [] {
      hide Handle, Begin;
      var before := qs[..|qs| - 1];
      GivenUpIff(x, before);
      assert forall k :: 0 <= k < |before| ==> before[..k] == qs[..k];
      assert forall k :: 0 <= k < |before| ==> (GivenUpAt(x, before, k) <==> GivenUpAt(x, qs, k));
      assert GivesUp(Transfer(x, before).d, qs[|qs| - 1]) <==> GivenUpAt(x, qs, |qs| - 1);
    }
  }

  // ----- what a slave sees, and which flag each step waits for -----

  /** The addresses come where they belong, however far the transfer got. */
  predicate Addressed(x: Xfer, ops: seq<DrOp>)
  {
    && (|ops| > 0 ==> ops[0] == Sent(if x.access == Rd then RdAddr(x.addr) else WrAddr(x.addr)))
    && (x.access == WrRd && |ops| > 2 ==> ops[2] == Sent(RdAddr(x.addr)))
  }

  lemma UnderwayAddressed(x: Xfer, p: Progress)
    requires x.Valid() && Underway(x, p)
    ensures Addressed(x, p.ops)
    ensures p.d.state == Stop && p.d.access == Rd ==> |p.ops| >= |ReadHead(x)|
  {
    hide RdAddr, WrAddr;
  }

  lemma {:induction false} TransferAddressed(x: Xfer, qs: seq<Irq>)
    requires x.Valid()
    ensures Addressed(x, Transfer(x, qs).ops)
  {
    hide Underway, Over, Addressed, Advance;
    if qs == [] {
      NothingAddressed(x);
    } else {
      var before, q := qs[..|qs| - 1], qs[|qs| - 1];
      TransferAddressed(x, before);
      TransferKnown(x, before);
      TransferKnown(x, qs);
      var p := Transfer(x, before);
      if Underway(x, p) {
        UnderwayAddressed(x, p);
        UnderwayHasAccess(x, p);
        if Underway(x, Advance(p, q)) { UnderwayAddressed(x, Advance(p, q)); } else { LastAddressed(x, p, q); }
      } else {
        OverAbsorbs(x, p, q);
      }
    }
  }

  lemma NothingAddressed(x: Xfer)
    ensures Addressed(x, [])
  {}

  /** The interrupt that ends a transfer adds no address. */
  lemma LastAddressed(x: Xfer, p: Progress, q: Irq)
    requires x.Valid() && Inv(p.d) && Addressed(x, p.ops) && Underway(x, p) && Over(x, Advance(p, q))
    requires p.d.state == Stop && p.d.access == Rd ==> |p.ops| >= |ReadHead(x)|
    ensures Addressed(x, Advance(p, q).ops)
  {
    hide RdAddr, WrAddr, Underway, FullTrace;
    UnderwayHasAccess(x, p);
    assert p.ops + [] == p.ops;
  }

  /**
   * The first octet sent carries the slave's 7-bit address in its upper bits and the direction in its lowest: 1 to
   * read, 0 to write. So does the third octet of a combined transfer, to read.
   */
  lemma SlaveAddressed(x: Xfer, qs: seq<Irq>)
    requires x.Valid() && 0 <= x.addr < 0x80
    ensures var ops := Transfer(x, qs).ops;
            && (|ops| > 0 ==> ops[0].Sent? && ops[0].v / 2 == x.addr && (ops[0].v % 2 == 1 <==> x.access == Rd))
            && (x.access == WrRd && |ops| > 2 ==> ops[2].Sent? && ops[2].v / 2 == x.addr && ops[2].v % 2 == 1)
  {
    TransferAddressed(x, qs);
  }

  /**
   * An event changes the record if and only if it has the flag that the state waits for: SB after a start, ADDR or its
   * absence, and TXE to write, after the address; RXNE or TXE for data; BTF at the end. Octets are received and sent,
   * and completions posted, on these flags only.
   */
  lemma EventAdvancesIff(d: Dev, f: Flags, rx: int)
    requires Inv(d)
    ensures var o := Event(d, f, rx);
            && (o.d != d <==>
                  || (d.state == Start && f.sb)
                  || (d.state == Addr && (!f.addr || d.access == Rd || f.txe))
                  || (d.state == Data && (if d.access == Rd then f.rxne else f.txe))
                  || (d.state == Stop && f.btf))
            && (o.posts > 0 <==> (d.state == Stop && f.btf) || (d.state == Addr && !f.addr))
            && (|o.ops| > 0 && o.ops[0].Sent? <==>
                  || (d.state == Start && f.sb)
                  || (d.state == Addr && f.addr && f.txe && d.access != Rd)
                  || (d.state == Data && f.txe && d.access == Wr))
            && (|o.ops| > 0 && o.ops[0].Received? <==>
                  d.access == Rd && ((d.state == Data && f.rxne) || (d.state == Stop && f.btf)))
            && |o.ops| <= 1
  {
    hide RdAddr, WrAddr;
  }

  /** Event interrupts with every flag set, one for each octet supplied by the bus. */
  function Ready(rxs: seq<int>): (qs: seq<Irq>)
    ensures |qs| == |rxs|
    ensures forall i :: 0 <= i < |qs| ==> qs[i] == EventIrq(Flags(true, true, true, true, true), rxs[i])
  {
    seq(|rxs|, i requires 0 <= i < |rxs| => EventIrq(Flags(true, true, true, true, true), rxs[i]))
  }

  lemma ReadyAdvances(x: Xfer, p: Progress, rx: int)
    requires x.Valid() && Underway(x, p)
    ensures var p' := Advance(p, EventIrq(Flags(true, true, true, true, true), rx));
            p'.steps == p.steps + 1 && !p'.aborted
  {
    hide TraceSoFar, Sends, Receives;
  }

  lemma UnderwayHasStepsToGo(x: Xfer, p: Progress)
    requires x.Valid() && Underway(x, p)
    ensures p.d.state != Idle && p.steps < TotalSteps(x)
  {}

  /**
   * A bus that is always ready sees every transfer through: each interrupt advances it, and it is over
   * after the last one, no earlier and no later.
   */
  lemma {:induction false} ReadyCompletes(x: Xfer, rxs: seq<int>)
    requires x.Valid() && |rxs| <= TotalSteps(x)
    ensures var p := Transfer(x, Ready(rxs));
            p.steps == |rxs| && !p.aborted && (p.d.state == Idle <==> |rxs| == TotalSteps(x))
  {
    hide Underway, Advance, TotalSteps;
    TransferKnown(x, Ready(rxs));
    var p := Transfer(x, Ready(rxs));
    if rxs != [] {
      var before := rxs[..|rxs| - 1];
      assert Ready(rxs)[..|rxs| - 1] == Ready(before);
      ReadyCompletes(x, before);
      TransferKnown(x, Ready(before));
      ReadyAdvances(x, Transfer(x, Ready(before)), rxs[|rxs| - 1]);
    }
    if Underway(x, p) { UnderwayHasStepsToGo(x, p); }
  }

  // ----- the driver -----

  class Driver {
    var access: Access
    var addr: int
    var state: State
    var buf: array<int>
    var nbr: nat         // octets asked for
    var bufPtr: int
    var bufLen: int
    var irqEn: bool
    var semWait: nat     // completions posted and not yet waited for
    var locked: bool     // SemLock taken

    ghost var ops: seq<DrOp>

    function Value(): Dev
      reads this, buf
      requires nbr <= buf.Length
    {
      Dev(access, addr, state, buf[..nbr], bufPtr, bufLen, irqEn)
    }

    ghost predicate Valid()
      reads this, buf
    {
      nbr <= buf.Length && Inv(Value())
    }

    constructor ()
      ensures Valid() && Value() == Resting() && semWait == 0 && !locked && ops == []
    {
      access, addr, state, irqEn := NoAccess, 0, Idle, false;
      buf := new int[0];
      nbr, bufPtr, bufLen := 0, 0, 0;
      semWait, locked := 0, false;
      ops := [];
    }

    /** BSP_I2C_StartXfer() up to the wait for completion; acquired tells whether the wait for the lock succeeded. */
    method StartXfer(access: Access, addr: int, p: array<int>, nbrBytes: nat, acquired: bool)
      requires (acquired ==> !locked) && nbrBytes <= p.Length
      requires access != NoAccess && nbrBytes >= (if access == WrRd then 2 else 1)
      modifies this
      ensures if acquired
              then Valid() && locked && buf == p && nbr == nbrBytes
                   && Value() == Begin(Xfer(access, addr, p[..nbrBytes])) && semWait == old(semWait) && ops == []
              else unchanged(this)
    {
      if acquired {
        locked := true;
        this.addr, this.access, state := addr, access, Start;
        buf, nbr, bufPtr, bufLen := p, nbrBytes, 0, nbrBytes;
        irqEn := true;
        ops := [];
      }
    }

    /** BSP_I2C_StartXfer(), the end of the wait and the lock's release; waited tells a completion from a timeout. */
    method EndWait(waited: bool)
      requires locked && (waited ==> semWait > 0)
      modifies this`semWait, this`locked
      ensures !locked && semWait == old(semWait) - (if waited then 1 else 0)
    {
      if waited { semWait := semWait - 1; }
      locked := false;
    }

    /** What it then reports, whoever has the lock by now. */
    method Report(waited: bool) returns (ok: bool)
      ensures ok <==> waited && bufLen == 0
    {
      ok := waited;
      if bufLen != 0 { ok := false; }
    }

    method Done()
      modifies this`state, this`access, this`irqEn, this`semWait
      ensures state == Idle && access == NoAccess && !irqEn && semWait == old(semWait) + 1
    {
      state, access, irqEn := Idle, NoAccess, false;
      semWait := semWait + 1;
    }

    method Send()
      requires nbr <= buf.Length && 0 <= bufPtr < nbr && bufLen > 0
      modifies this`bufPtr, this`bufLen, this`state, this`ops
      ensures Value() == SendOctet(old(Value())).d && ops == old(ops) + SendOctet(old(Value())).ops
    {
      ops := ops + [Sent(buf[bufPtr])];
      bufPtr, bufLen := bufPtr + 1, bufLen - 1;
      state := if bufLen == 0 then Stop else Data;
    }

    method Store(rx: int)
      requires nbr <= buf.Length && 0 <= bufPtr < nbr && bufLen > 0
      modifies this`bufPtr, this`bufLen, this`state, this`ops, buf
      ensures Value() == StoreOctet(old(Value()), rx).d && ops == old(ops) + StoreOctet(old(Value()), rx).ops
      ensures forall i :: 0 <= i < buf.Length && i != old(bufPtr) ==> buf[i] == old(buf[i])
    {
      buf[bufPtr] := rx;
      ops := ops + [Received(rx)];
      bufPtr, bufLen := bufPtr + 1, bufLen - 1;
      if bufLen == 1 { state := Stop; }
    }

    /** The data state of the event handler. */
    method DataIsr(f: Flags, rx: int)
      requires Valid() && state == Data
      modifies this, buf
      ensures buf == old(buf) && nbr == old(nbr) && locked == old(locked)
      ensures var o := Event(old(Value()), f, rx);
              Value() == o.d && ops == old(ops) + o.ops && semWait == old(semWait) + o.posts
      ensures forall i :: nbr <= i < buf.Length ==> buf[i] == old(buf[i])
    {
      if access == WrRd {
        if f.txe { state, access := Start, Rd; }
      } else if access == Rd {
        if f.rxne { Store(rx); }
      } else {
        if f.txe { Send(); }
      }
    }

    /** The stop state of the event handler. */
    method StopIsr(f: Flags, rx: int)
      requires Valid() && state == Stop
      modifies this, buf
      ensures buf == old(buf) && nbr == old(nbr) && locked == old(locked)
      ensures var o := Event(old(Value()), f, rx);
              Value() == o.d && ops == old(ops) + o.ops && semWait == old(semWait) + o.posts
      ensures forall i :: nbr <= i < buf.Length ==> buf[i] == old(buf[i])
    {
      if f.btf {
        if access == Rd { Store(rx); }
        Done();
      }
    }

    /** The address state of the event handler. */
    method AddrIsr(f: Flags, rx: int)
      requires Valid() && state == Addr
      modifies this, buf
      ensures buf == old(buf) && nbr == old(nbr) && locked == old(locked)
      ensures var o := Event(old(Value()), f, rx);
              Value() == o.d && ops == old(ops) + o.ops && semWait == old(semWait) + o.posts
      ensures forall i :: nbr <= i < buf.Length ==> buf[i] == old(buf[i])
    {
      if f.addr {
        if access == Rd { state := if bufLen == 1 then Stop else Data; }
        else if f.txe { Send(); }
      } else {
        Done();
      }
    }

    /** BSP_I2Cx_EventISR_Handler(). */
    method EventIsr(f: Flags, rx: int)
      requires Valid()
      modifies this, buf
      ensures Valid() && buf == old(buf) && nbr == old(nbr) && locked == old(locked)
      ensures var o := Event(old(Value()), f, rx);
              Value() == o.d && ops == old(ops) + o.ops && semWait == old(semWait) + o.posts
      ensures forall i :: nbr <= i < buf.Length ==> buf[i] == old(buf[i])
    {
      match state {
        case Start =>
          if f.sb {
            ops := ops + [Sent(if access == Rd then RdAddr(addr) else WrAddr(addr))];
            state := Addr;
          }
        case Addr => AddrIsr(f, rx);
        case Data => DataIsr(f, rx);
        case Stop => StopIsr(f, rx);
        case Idle =>
      }
    }

    /** BSP_I2Cx_ErrISR_Handler(). */
    method ErrIsr()
      requires Valid()
      modifies this
      ensures Valid() && buf == old(buf) && nbr == old(nbr) && locked == old(locked)
      ensures var o := Error(old(Value()));
              Value() == o.d && ops == old(ops) && semWait == old(semWait) + o.posts
    {
      if state != Idle { Done(); }
    }
  }

  /** BSP_I2C_DevTbl, one driver for each controller. */
  class Drivers {
    const dev1: Driver
    const dev2: Driver

    constructor ()
      ensures fresh(dev1) && fresh(dev2) && dev1 != dev2
      ensures forall d <- [dev1, dev2] :: d.Valid() && d.Value() == Resting() && !d.locked
    {
      dev1 := new Driver();
      dev2 := new Driver();
    }

    function Dev(id: int): Driver?
    {
      if id == 1 then dev1 else if id == 2 then dev2 else null
    }

    /** BSP_I2C_Rd(), BSP_I2C_Wr() and BSP_I2C_WrRd() up to the wait for completion. */
    method Start(id: int, access: Access, addr: int, p: array?<int>, nbrBytes: nat, acquired: bool)
      returns (started: bool)
      requires access != NoAccess && (p != null ==> nbrBytes <= p.Length)
      requires dev1 != dev2 && (acquired && Dev(id) != null ==> !Dev(id).locked)
      modifies dev1, dev2
      ensures started <==> p != null && nbrBytes >= (if access == WrRd then 2 else 1) && Dev(id) != null && acquired
      ensures started ==>
                && Dev(id).Valid() && Dev(id).locked && Dev(id).buf == p && Dev(id).nbr == nbrBytes
                && Dev(id).Value() == Begin(Xfer(access, addr, p[..nbrBytes]))
                && Dev(id).semWait == old(Dev(id).semWait) && Dev(id).ops == []
      ensures !(started && id == 1) ==> unchanged(dev1)
      ensures !(started && id == 2) ==> unchanged(dev2)
    {
      started := false;
      if p != null && nbrBytes >= (if access == WrRd then 2 else 1) {
        var dev := Dev(id);
        if dev != null {
          dev.StartXfer(access, addr, p, nbrBytes, acquired);
          started := acquired;
        }
      }
    }
  }
}
