/**
 * Tasks that share one I2C controller (bsp_i2c.c), store by store: a call waits for the lock, sets up the transfer
 * record, enables the interrupts, waits, releases the lock, and only then looks at the record for its result.
 * Interrupts come in wherever they are enabled, also those of an earlier transfer whose wait has timed out.
 */
module I2cTasks {
  import opened I2c

  // ----- the handlers on any record -----

  /** What an interrupt does to a record that need not be in order: it may access memory outside the buffer. */
  datatype Raw = Fault | Fine(o: Outcome)

  /** BufLen, 16 bits wide, decremented. */
  function Dec(len: int): int { if len == 0 then 0xFFFF else len - 1 }

  function RawSend(d: Dev): Raw
  {
    if !(0 <= d.ptr < |d.buf|) then Fault
    else
      var d' := d.(ptr := d.ptr + 1, len := Dec(d.len));
      Fine(Outcome(d'.(state := if d'.len == 0 then Stop else Data), [Sent(d.buf[d.ptr])], 0))
  }

  function RawStore(d: Dev, rx: int): Raw
  {
    if !(0 <= d.ptr < |d.buf|) then Fault
    else
      var d' := d.(buf := d.buf[d.ptr := rx], ptr := d.ptr + 1, len := Dec(d.len));
      Fine(Outcome(d', [Received(rx)], 0))
  }

  /** BSP_I2Cx_EventISR_Handler(). */
  function RawEvent(d: Dev, f: Flags, rx: int): Raw
  {
    match d.state
    case Start =>
      if !f.sb then Fine(Same(d))
      else Fine(Outcome(d.(state := Addr), [Sent(if d.access == Rd then RdAddr(d.addr) else WrAddr(d.addr))], 0))
    case Addr =>
      if !f.addr then Fine(Finish(d, []))
      else if d.access == Rd then Fine(Outcome(d.(state := if d.len == 1 then Stop else Data), [], 0))
      else if d.access != NoAccess && f.txe then RawSend(d)
      else Fine(Same(d))
    case Data =>
      if d.access == WrRd && f.txe then Fine(Outcome(d.(state := Start, access := Rd), [], 0))
      else if d.access == Rd && f.rxne then
        var r := RawStore(d, rx);
        if r.Fault? then Fault else Fine(r.o.(d := r.o.d.(state := if r.o.d.len == 1 then Stop else Data)))
      else if d.access == Wr && f.txe then RawSend(d)
      else Fine(Same(d))
    case Stop =>
      if !f.btf then Fine(Same(d))
      else if d.access == Rd || d.access == WrRd then
        var r := RawStore(d, rx);
        if r.Fault? then Fault else Fine(Finish(r.o.d, r.o.ops))
      else Fine(Finish(d, []))
    case Idle => Fine(Same(d))
  }

  function RawHandle(d: Dev, q: Irq): Raw
  {
    match q
    case EventIrq(f, rx) => RawEvent(d, f, rx)
    case ErrorIrq => if d.state != Idle then Fine(Finish(d, [])) else Fine(Same(d))
  }

  /** On a record in order that is what the handlers do to it, and there is no fault. */
  lemma RawIsHandle(d: Dev, q: Irq)
    requires Inv(d)
    ensures RawHandle(d, q) == Fine(Handle(d, q))
  {}

  // ----- the tasks -----

  /** Nobody has the lock; the lock's holder has k of its six stores behind it; or it waits. */
  datatype Stage = Unlocked | Setup(k: nat) | Waiting

  /** How far a call is: before the end of its wait, behind it, or back with its result. */
  datatype End = Going | Ended(completion: bool) | Reported(ok: bool)

  datatype Call = Call(x: Xfer, end: End)

  /**
   * The record and what has passed since the last call got the lock; the calls in the order in which they got it;
   * whether memory outside a buffer was accessed; and counts: transfers started, transfers overwritten by a start,
   * completions posted, and completions taken by a wait.
   */
  datatype Sys = Sys(p: Progress, stage: Stage, calls: seq<Call>, faulted: bool,
                     started: nat, overwritten: nat, posts: nat, taken: nat)
  {
    /** The transfer of the call that got the lock last. */
    function Last(): Xfer
      requires calls != []
    {
      calls[|calls| - 1].x
    }
  }

  function Reset(): Sys
  {
    Sys(Progress(Resting(), [], 0, 0, false), Unlocked, [], false, 0, 0, 0, 0)
  }

  datatype Step =
    | LockStep(x: Xfer)            // a call gets the lock
    | StoreStep                    // its next store to the record, or the interrupts are enabled
    | IrqStep(q: Irq)
    | EndStep(completion: bool)    // its wait ends, by a completion or by a timeout, and it releases the lock
    | ReportStep(i: nat)           // call i looks at the record and returns

  /** The k-th store of a call's set-up; the last one enables the interrupts. */
  function Store(d: Dev, x: Xfer, k: nat): Dev
  {
    match k
    case 0 => d.(addr := x.addr)
    case 1 => d.(access := x.access)
    case 2 => d.(state := Start)
    case 3 => d.(buf := x.buf, ptr := 0)
    case 4 => d.(len := |x.buf|)
    case _ => d.(irqEn := true)
  }

  predicate Enabled(s: Sys, step: Step)
  {
    && !s.faulted
    && match step
       case LockStep(x) => x.Valid() && s.stage == Unlocked
       case StoreStep => s.stage.Setup? && s.stage.k <= 5 && s.calls != []
       case IrqStep(_) => s.p.d.irqEn
       case EndStep(completion) => s.stage == Waiting && s.calls != [] && (completion ==> s.taken < s.posts)
       case ReportStep(i) => i < |s.calls| && s.calls[i].end.Ended?
  }

  function AfterStore(s: Sys): Sys
    requires Enabled(s, StoreStep)
  {
    var k := s.stage.k;
    s.(p := s.p.(d := Store(s.p.d, s.Last(), k)),
       stage := if k < 5 then Setup(k + 1) else Waiting,
       started := s.started + (if k == 2 then 1 else 0),
       overwritten := s.overwritten + (if k == 2 && s.p.d.state != Idle then 1 else 0))
  }

  function AfterIrq(s: Sys, q: Irq): Sys
  {
    match RawHandle(s.p.d, q)
    case Fault => s.(faulted := true)
    case Fine(o) =>
      s.(p := Progress(o.d, s.p.ops + o.ops, s.p.steps + (if q.EventIrq? && o.d != s.p.d then 1 else 0),
                       s.p.posts + o.posts, s.p.aborted || GivesUp(s.p.d, q)),
         posts := s.posts + o.posts)
  }

  /** One step; a step that is not possible is skipped. */
  function Next(s: Sys, step: Step): Sys
  {
    if !Enabled(s, step) then s
    else
      match step
      case LockStep(x) =>
        s.(p := Progress(s.p.d, [], 0, 0, false), stage := Setup(0), calls := s.calls + [Call(x, Going)])
      case StoreStep => AfterStore(s)
      case IrqStep(q) => AfterIrq(s, q)
      case EndStep(completion) =>
        s.(stage := Unlocked, calls := s.calls[|s.calls| - 1 := Call(s.Last(), Ended(completion))],
           taken := s.taken + (if completion then 1 else 0))
      case ReportStep(i) =>
        s.(calls := s.calls[i := Call(s.calls[i].x, Reported(s.calls[i].end.completion && s.p.d.len == 0))])
  }

  /** Every run is a sequence of such steps. */
  function Exec(s: Sys, steps: seq<Step>): Sys
  {
    if steps == [] then s else Next(Exec(s, steps[..|steps| - 1]), steps[|steps| - 1])
  }

  lemma ExecNext(s: Sys, steps: seq<Step>, step: Step)
    ensures Exec(s, steps + [step]) == Next(Exec(s, steps), step)
  {
    assert (steps + [step])[..|steps|] == steps;
  }

  lemma {:induction false} ExecThen(s: Sys, a: seq<Step>, b: seq<Step>)
    ensures Exec(s, a + b) == Exec(Exec(s, a), b)
  {
    if b == [] {
      assert a + b == a;
    } else {
      var b' := b[..|b| - 1];
      ExecThen(s, a, b');
      assert (a + b)[..|a + b| - 1] == a + b';
    }
  }

  // ----- what every run keeps -----

  /**
   * Each transfer started is accounted for once: its completion was posted, or it is under way, or a later start
   * overwrote it.
   */
  predicate Accounted(s: Sys)
  {
    && s.posts + (if s.p.d.state != Idle then 1 else 0) + s.overwritten == s.started
    && s.taken <= s.posts
  }

  /**
   * The holder of the lock is the last call. Outside the set-up, interrupts are disabled in the idle state only, and
   * the pointer has advanced by no less than the octets gone, except between its store and that of the length.
   */
  predicate Ordered(s: Sys)
  {
    && (s.stage == Unlocked || (s.calls != [] && s.calls[|s.calls| - 1].end == Going && s.Last().Valid()))
    && (s.stage.Setup? ==> s.stage.k <= 5)
    && (!s.stage.Setup? && !s.p.d.irqEn ==> s.p.d.state == Idle)
    && s.p.d.ptr >= 0 && s.p.d.len >= 0
    && (if s.stage == Setup(4) then |s.p.d.buf| == |s.Last().buf| else s.p.d.ptr + s.p.d.len >= |s.p.d.buf|)
  }

  /**
   * An interrupt without a fault posts exactly when it ends a transfer, and takes no more from the length than it adds
   * to the pointer.
   */
  lemma RawKeeps(d: Dev, q: Irq)
    requires d.ptr >= 0 && d.len >= 0 && RawHandle(d, q).Fine?
    ensures var o := RawHandle(d, q).o;
            && |o.d.buf| == |d.buf| && o.d.ptr >= 0 && o.d.len >= 0
            && (d.ptr + d.len >= |d.buf| ==> o.d.ptr + o.d.len >= |d.buf|)
            && o.posts == (if d.state != Idle && o.d.state == Idle then 1 else 0)
            && (d.state == Idle ==> o == Same(d))
            && (o.d.irqEn == d.irqEn || o.d.state == Idle)
  {}

  lemma IrqKeeps(s: Sys, q: Irq)
    requires Accounted(s) && Ordered(s)
    ensures Accounted(AfterIrq(s, q)) && Ordered(AfterIrq(s, q))
  {
    hide RawHandle;
    if RawHandle(s.p.d, q).Fine? { RawKeeps(s.p.d, q); }
  }

  lemma StoreKeeps(s: Sys)
    requires Accounted(s) && Ordered(s) && Enabled(s, StoreStep)
    ensures Accounted(AfterStore(s)) && Ordered(AfterStore(s))
  {}

  lemma NextKeeps(s: Sys, step: Step)
    requires Accounted(s) && Ordered(s)
    ensures Accounted(Next(s, step)) && Ordered(Next(s, step))
  {
    hide AfterIrq, AfterStore;
    if Enabled(s, step) {
      match step
      case IrqStep(q) => IrqKeeps(s, q);
      case StoreStep => StoreKeeps(s);
      case _ =>
    }
  }

  lemma {:induction false} Kept(s: Sys, steps: seq<Step>)
    requires Accounted(s) && Ordered(s)
    ensures Accounted(Exec(s, steps)) && Ordered(Exec(s, steps))
  {
    if steps != [] {
      Kept(s, steps[..|steps| - 1]);
      NextKeeps(Exec(s, steps[..|steps| - 1]), steps[|steps| - 1]);
    }
  }

  /**
   * In every run, whatever timeouts, overwritten transfers and interrupts there are, the completions posted, the
   * transfer under way and the transfers overwritten add up to the transfers started. In the idle state every interrupt
   * is without effect.
   */
  lemma PostsConserved(steps: seq<Step>)
    ensures var s := Exec(Reset(), steps);
            && Accounted(s) && Ordered(s)
            && (s.p.d.state == Idle ==> forall q :: Next(s, IrqStep(q)) == s)
  {
    Kept(Reset(), steps);
    IdleAbsorbs(Exec(Reset(), steps));
  }

  lemma IdleAbsorbs(s: Sys)
    ensures s.p.d.state == Idle ==> forall q :: Next(s, IrqStep(q)) == s
  {
    assert s.p.ops + [] == s.p.ops;
  }

  // ----- one call, its lock found with the interrupts disabled -----

  /** The record between a call's stores, when no interrupt comes in between. */
  predicate InSetup(s: Sys)
    requires s.calls != [] && s.stage.Setup?
  {
    var d, x, k := s.p.d, s.Last(), s.stage.k;
    && x.Valid() && !d.irqEn && k <= 5
    && d.state == (if k <= 2 then Idle else Start)
    && (k >= 1 ==> d.addr == x.addr)
    && (k >= 2 ==> d.access == x.access)
    && (k >= 4 ==> d.buf == x.buf && d.ptr == 0)
    && (k >= 5 ==> d.len == |x.buf|)
    && s.p == Progress(d, [], 0, 0, false)
  }

  ghost predicate Known(x: Xfer, p: Progress)
  {
    x.Valid() && (Underway(x, p) || Over(x, p))
  }

  /**
   * The last call's transfer is what it asked for, and of the completions there are all but its own were left over
   * when it got the lock.
   */
  ghost predicate Mine(s: Sys, leftOver: int)
  {
    && s.calls != [] && !s.faulted
    && if s.stage.Setup? then InSetup(s) && s.posts - s.taken == leftOver
       else Known(s.Last(), s.p) && (s.stage == Waiting ==> s.posts - s.taken == leftOver + s.p.posts)
  }

  lemma LockIsMine(s: Sys, x: Xfer)
    requires Ordered(s) && Enabled(s, LockStep(x)) && !s.p.d.irqEn
    ensures Mine(Next(s, LockStep(x)), s.posts - s.taken)
  {}

  /** As long as nobody else gets the lock. */
  lemma MineStays(s: Sys, step: Step, leftOver: int)
    requires Mine(s, leftOver) && !step.LockStep?
    ensures Mine(Next(s, step), leftOver) && |Next(s, step).calls| == |s.calls|
    ensures Next(s, step).Last() == s.Last()
  {
    hide Known, AfterIrq, AfterStore;
    if Enabled(s, step) {
      match step
      case StoreStep => StoreStaysMine(s, leftOver);
      case IrqStep(q) => IrqStaysMine(s, q, leftOver);
      case _ =>
    }
  }

  lemma StoreStaysMine(s: Sys, leftOver: int)
    requires Mine(s, leftOver) && Enabled(s, StoreStep)
    ensures Mine(AfterStore(s), leftOver) && AfterStore(s).calls == s.calls
  {
    if s.stage.k == 5 { BeginUnderway(s.Last()); }
  }

  lemma BeginUnderway(x: Xfer)
    requires x.Valid()
    ensures Underway(x, Progress(Begin(x), [], 0, 0, false))
  {}

  lemma IrqStaysMine(s: Sys, q: Irq, leftOver: int)
    requires Mine(s, leftOver) && Enabled(s, IrqStep(q))
    ensures Mine(AfterIrq(s, q), leftOver) && AfterIrq(s, q).calls == s.calls
  {
    hide Underway, Over, RawHandle, Handle;
    var x := s.Last();
    KnownInOrder(x, s.p);
    RawIsHandle(s.p.d, q);
    AfterIrqAdvances(s, q);
    if Underway(x, s.p) { AdvanceKeeps(x, s.p, q); } else { OverAbsorbs(x, s.p, q); }
  }

  lemma KnownInOrder(x: Xfer, p: Progress)
    requires Known(x, p)
    ensures Inv(p.d)
  {}

  /** On a record in order. */
  lemma AfterIrqAdvances(s: Sys, q: Irq)
    requires Inv(s.p.d)
    ensures AfterIrq(s, q) == s.(p := Advance(s.p, q), posts := s.posts + Advance(s.p, q).posts - s.p.posts)
  {
    hide RawHandle, Handle;
    RawIsHandle(s.p.d, q);
  }

  predicate NoLock(steps: seq<Step>) { forall i :: 0 <= i < |steps| ==> !steps[i].LockStep? }

  predicate NoEnd(steps: seq<Step>) { forall i :: 0 <= i < |steps| ==> !steps[i].EndStep? }

  lemma {:induction false} MineThen(s: Sys, steps: seq<Step>, leftOver: int)
    requires Mine(s, leftOver) && NoLock(steps)
    ensures Mine(Exec(s, steps), leftOver) && |Exec(s, steps).calls| == |s.calls| && Exec(s, steps).Last() == s.Last()
  {
    if steps != [] {
      MineThen(s, steps[..|steps| - 1], leftOver);
      MineStays(Exec(s, steps[..|steps| - 1]), steps[|steps| - 1], leftOver);
    }
  }

  // ----- when a set-up is safe -----

  /** No run from here on, before another call gets the lock, accesses memory outside a buffer, whatever the call. */
  ghost predicate SetupSafe(s: Sys)
  {
    forall x: Xfer, steps: seq<Step> :: x.Valid() && NoLock(steps) ==> !Exec(Next(s, LockStep(x)), steps).faulted
  }

  const Flagged := Flags(true, true, true, true, true)

  /** An event interrupt with all flags set. */
  function Ev(): Step { IrqStep(EventIrq(Flagged, 0)) }

  /** t can come about from s before another call gets the lock or a wait ends. */
  ghost predicate Reaches(s: Sys, t: Sys)
  {
    exists steps :: NoLock(steps) && NoEnd(steps) && Exec(s, steps) == t
  }

  lemma ReachesItself(s: Sys)
    ensures Reaches(s, s)
  {
    assert NoLock([]) && NoEnd([]) && Exec(s, []) == s;
  }

  lemma ReachesNext(s: Sys, t: Sys, step: Step)
    requires Reaches(s, t) && !step.LockStep? && !step.EndStep?
    ensures Reaches(s, Next(t, step))
  {
    hide Exec, Next;
    var steps :| NoLock(steps) && NoEnd(steps) && Exec(s, steps) == t;
    ExecNext(s, steps, step);
    assert NoLock(steps + [step]) && NoEnd(steps + [step]);
  }

  /** The first three stores of a set-up with the interrupts enabled, and an event interrupt behind them. */
  lemma Spoiled(s: Sys, x: Xfer) returns (t: Sys)
    requires Ordered(s) && !s.faulted && s.stage == Unlocked && s.p.d.irqEn && x.Valid()
    ensures Reaches(Next(s, LockStep(x)), t)
    ensures t.calls != [] && t.Last() == x && !t.faulted && t.stage == Setup(3)
    ensures t.p.d == s.p.d.(addr := x.addr, access := x.access, state := Addr)
  {
    hide Reaches;
    var s0 := Next(s, LockStep(x));
    ReachesItself(s0);
    ReachesNext(s0, s0, StoreStep);
    var s1 := Next(s0, StoreStep);
    ReachesNext(s0, s1, StoreStep);
    var s2 := Next(s1, StoreStep);
    ReachesNext(s0, s2, StoreStep);
    var s3 := Next(s2, StoreStep);
    ReachesNext(s0, s3, Ev());
    t := Next(s3, Ev());
  }

  /** A read of one octet set up over a record with more or none left: the second octet has no place. */
  lemma ReadFaults(s: Sys) returns (x: Xfer, u: Sys)
    requires Ordered(s) && !s.faulted && s.stage == Unlocked && s.p.d.irqEn && s.p.d.len != 1
    ensures x.Valid() && Reaches(Next(s, LockStep(x)), u) && u.faulted
  {
    hide Reaches;
    x := Xfer(Rd, 0, [0]);
    var s0 := Next(s, LockStep(x));
    var t := Spoiled(s, x);
    ReachesNext(s0, t, Ev());
    var t1 := Next(t, Ev());
    ReachesNext(s0, t1, StoreStep);
    var t2 := Next(t1, StoreStep);
    ReachesNext(s0, t2, StoreStep);
    var t3 := Next(t2, StoreStep);
    ReachesNext(s0, t3, Ev());
    var t4 := Next(t3, Ev());
    ReachesNext(s0, t4, Ev());
    u := Next(t4, Ev());
  }

  /** A combined transfer set up over a record with one octet left: that is sent, and the one received has no place. */
  lemma WriteReadFaults(s: Sys) returns (x: Xfer, u: Sys)
    requires Ordered(s) && !s.faulted && s.stage == Unlocked && s.p.d.irqEn && s.p.d.len == 1
    ensures x.Valid() && Reaches(Next(s, LockStep(x)), u) && u.faulted
  {
    hide Reaches;
    x := Xfer(WrRd, 0, [0, 0]);
    var s0 := Next(s, LockStep(x));
    var t := Spoiled(s, x);
    ReachesNext(s0, t, Ev());
    var t1 := Next(t, Ev());
    ReachesNext(s0, t1, Ev());
    u := Next(t1, Ev());
  }

  /**
   * In whatever state a call gets the lock, its set-up and transfer are safe if and only if the interrupts are disabled
   * then: no transfer that timed out is still under way.
   */
  lemma SetupSafeIff(s: Sys)
    requires Ordered(s) && !s.faulted && s.stage == Unlocked
    ensures SetupSafe(s) <==> !s.p.d.irqEn
  {
    hide Exec, Next, Mine;
    if !s.p.d.irqEn {
      forall x: Xfer, steps: seq<Step> | x.Valid() && NoLock(steps)
        ensures !Exec(Next(s, LockStep(x)), steps).faulted
      {
        LockIsMine(s, x);
        MineThen(Next(s, LockStep(x)), steps, s.posts - s.taken);
        MineIsSafe(Exec(Next(s, LockStep(x)), steps), s.posts - s.taken);
      }
    } else {
      var x, u;
      if s.p.d.len != 1 { x, u := ReadFaults(s); } else { x, u := WriteReadFaults(s); }
      var steps :| NoLock(steps) && Exec(Next(s, LockStep(x)), steps) == u;
    }
  }

  lemma MineIsSafe(s: Sys, leftOver: int)
    requires Mine(s, leftOver)
    ensures !s.faulted
  {}

  // ----- whose completion a wait takes -----

  /** The transfer of the call that waits is over, and its completion is the only one there. */
  ghost predicate Own(s: Sys)
  {
    s.calls != [] && s.Last().Valid() && Over(s.Last(), s.p) && s.posts == s.taken + 1
  }

  /** Whenever the wait of a call for x that gets the lock now takes a completion, it is the call's own. */
  ghost predicate TakesOwn(s: Sys, x: Xfer)
  {
    forall steps :: NoLock(steps) && NoEnd(steps) && Enabled(Exec(Next(s, LockStep(x)), steps), EndStep(true))
                    ==> Own(Exec(Next(s, LockStep(x)), steps))
  }

  /** The six stores of a set-up, without an interrupt. */
  lemma SetUp(s0: Sys, s: Sys) returns (t: Sys)
    requires Reaches(s0, s) && s.calls != [] && s.Last().Valid() && !s.faulted && s.stage == Setup(0)
    ensures Reaches(s0, t)
    ensures t == s.(p := s.p.(d := Begin(s.Last())), stage := Waiting, started := s.started + 1,
                    overwritten := s.overwritten + (if s.p.d.state != Idle then 1 else 0))
  {
    t := ThreeStores(s0, s);
    t := ThreeStores(s0, t);
  }

  /** Three stores to the record: of address, access type and state; or of the buffer, and the interrupts enabled. */
  function AfterThree(s: Sys): Sys
    requires s.calls != [] && s.stage.Setup?
  {
    var d, x := s.p.d, s.Last();
    if s.stage.k == 0
    then s.(p := s.p.(d := d.(addr := x.addr, access := x.access, state := Start)), stage := Setup(3),
            started := s.started + 1, overwritten := s.overwritten + (if d.state != Idle then 1 else 0))
    else s.(p := s.p.(d := d.(buf := x.buf, ptr := 0, len := |x.buf|, irqEn := true)), stage := Waiting)
  }

  lemma ThreeStores(s0: Sys, s: Sys) returns (t: Sys)
    requires Reaches(s0, s) && s.calls != [] && s.Last().Valid() && !s.faulted && s.stage.Setup? && s.stage.k in {0, 3}
    ensures Reaches(s0, t)
    ensures t == AfterThree(s)
  {
    hide Reaches;
    ReachesNext(s0, s, StoreStep);
    var s1 := Next(s, StoreStep);
    ReachesNext(s0, s1, StoreStep);
    var s2 := Next(s1, StoreStep);
    ReachesNext(s0, s2, StoreStep);
    t := Next(s2, StoreStep);
  }

  /** A completion left over, or one that comes in during the set-up, ends the wait before the transfer begins. */
  lemma TakesAnother(s: Sys, x: Xfer) returns (t: Sys)
    requires Ordered(s) && !s.faulted && s.stage == Unlocked && x.Valid() && s.taken <= s.posts
    requires s.p.d.irqEn || s.taken < s.posts
    ensures Reaches(Next(s, LockStep(x)), t) && Enabled(t, EndStep(true)) && !Own(t)
  {
    hide Reaches;
    var s0 := Next(s, LockStep(x));
    ReachesItself(s0);
    if s.taken < s.posts {
      t := SetUp(s0, s0);
    } else {
      var t1 := ThreeStores(s0, s0);
      ReachesNext(s0, t1, IrqStep(ErrorIrq));
      t := ThreeStores(s0, Next(t1, IrqStep(ErrorIrq)));
    }
  }

  /**
   * In whatever state a call gets the lock, a completion that its wait takes is bound to be its own if and only if the
   * interrupts are disabled then and no completion is left over from before. The transfer is over then.
   */
  lemma TakesOwnIff(s: Sys, x: Xfer)
    requires Ordered(s) && Accounted(s) && !s.faulted && s.stage == Unlocked && x.Valid()
    ensures TakesOwn(s, x) <==> !s.p.d.irqEn && s.taken == s.posts
  {
    hide Exec, Next, Mine, Own;
    var s0 := Next(s, LockStep(x));
    if !s.p.d.irqEn && s.taken == s.posts {
      LockIsMine(s, x);
      forall steps | NoLock(steps) && NoEnd(steps) && Enabled(Exec(s0, steps), EndStep(true))
        ensures Own(Exec(s0, steps))
      {
        MineThen(s0, steps, 0);
        MineIsOwn(Exec(s0, steps));
      }
    } else {
      var t := TakesAnother(s, x);
      var steps :| NoLock(steps) && NoEnd(steps) && Exec(s0, steps) == t;
    }
  }

  lemma MineIsOwn(s: Sys)
    requires Mine(s, 0) && Enabled(s, EndStep(true))
    ensures Own(s)
  {}

  // ----- what a call reports -----

  /** The length is stored for a call. */
  predicate StoresLen(s: Sys, step: Step) { step.StoreStep? && s.stage == Setup(4) }

  /** No length is stored in the course of the steps. */
  ghost predicate NoLen(s: Sys, steps: seq<Step>)
  {
    forall n :: 0 <= n < |steps| ==> !StoresLen(Exec(s, steps[..n]), steps[n])
  }

  /** Call i has ended with a completion or reported, and the record still has its length. */
  predicate Settled(s: Sys, i: nat, len: int)
  {
    && !s.p.d.irqEn && s.p.d.len == len && !s.faulted
    && (s.stage.Setup? ==> s.calls != [] && |s.calls| - 1 != i && s.stage.k <= 4)
    && s.stage != Waiting
    && i < |s.calls| && (s.calls[i].end == Ended(true) || s.calls[i].end == Reported(len == 0))
  }

  lemma SettledStays(s: Sys, step: Step, i: nat, len: int)
    requires Settled(s, i, len) && !StoresLen(s, step)
    ensures Settled(Next(s, step), i, len)
  {}

  lemma {:induction false} SettledThen(s: Sys, steps: seq<Step>, i: nat, len: int)
    requires Settled(s, i, len) && NoLen(s, steps)
    ensures Settled(Exec(s, steps), i, len)
  {
    if steps != [] {
      var before := steps[..|steps| - 1];
      assert forall n :: 0 <= n < |before| ==> before[..n] == steps[..n];
      SettledThen(s, before, i, len);
      assert !StoresLen(Exec(s, steps[..|steps| - 1]), steps[|steps| - 1]);
      SettledStays(Exec(s, before), steps[|steps| - 1], i, len);
    }
  }

  /**
   * A call that got the lock in state s, and whose wait took a completion in state t: as long as no length is stored
   * for another call, what it reports is what has become of its transfer -- success if and only if no octet is left,
   * and then all have passed in order; in particular whenever the transfer was not given up.
   */
  lemma ReportIsOwn(s: Sys, x: Xfer, steps: seq<Step>, more: seq<Step>)
    requires Ordered(s) && Accounted(s) && !s.p.d.irqEn && s.taken == s.posts
    requires Enabled(s, LockStep(x)) && NoLock(steps) && NoEnd(steps)
    requires Enabled(Exec(Next(s, LockStep(x)), steps), EndStep(true))
    requires NoLen(Next(Exec(Next(s, LockStep(x)), steps), EndStep(true)), more)
    ensures var t := Exec(Next(s, LockStep(x)), steps);
            var u := Exec(Next(t, EndStep(true)), more);
            && |s.calls| < |u.calls|
            && (u.calls[|s.calls|].end == Ended(true) || u.calls[|s.calls|].end == Reported(t.p.d.len == 0))
            && |t.p.d.buf| == |x.buf|
            && (t.p.d.len == 0 ==> t.p.ops == FullTrace(x, t.p.d.buf))
            && (!t.p.aborted ==> t.p.d.len == 0 && t.p.steps == TotalSteps(x))
  {
    hide Exec, Next, Mine, Settled;
    var s0 := Next(s, LockStep(x));
    LockIsMine(s, x);
    LockedIs(s, x);
    MineThen(s0, steps, 0);
    var t := Exec(s0, steps);
    MineIsOwn(t);
    OwnSettles(t);
    SettledThen(Next(t, EndStep(true)), more, |s.calls|, t.p.d.len);
    SettledIs(Exec(Next(t, EndStep(true)), more), |s.calls|, t.p.d.len);
  }

  lemma LockedIs(s: Sys, x: Xfer)
    requires Enabled(s, LockStep(x))
    ensures Next(s, LockStep(x)).calls == s.calls + [Call(x, Going)]
  {}

  lemma OwnSettles(t: Sys)
    requires Own(t) && Enabled(t, EndStep(true))
    ensures Settled(Next(t, EndStep(true)), |t.calls| - 1, t.p.d.len)
  {}

  lemma SettledIs(s: Sys, i: nat, len: int)
    requires Settled(s, i, len)
    ensures i < |s.calls| && (s.calls[i].end == Ended(true) || s.calls[i].end == Reported(len == 0))
  {}

  /**
   * Whether or not its completion was its own: a call that got the lock with the interrupts disabled, and reports
   * before another call gets it, reports success only if all octets of its transfer have passed in order.
   */
  lemma SuccessIsComplete(s: Sys, x: Xfer, steps: seq<Step>)
    requires Ordered(s) && Accounted(s) && Enabled(s, LockStep(x)) && !s.p.d.irqEn && NoLock(steps)
    requires Enabled(Exec(Next(s, LockStep(x)), steps), ReportStep(|s.calls|))
    ensures var u := Exec(Next(s, LockStep(x)), steps);
            && |u.calls| == |s.calls| + 1 && |u.p.d.buf| == |x.buf|
            && (Next(u, ReportStep(|s.calls|)).calls[|s.calls|].end == Reported(true) ==>
                  u.p.ops == FullTrace(x, u.p.d.buf))
  {
    hide Exec, Mine, Known;
    LockIsMine(s, x);
    LockedIs(s, x);
    NextKeeps(s, LockStep(x));
    Kept(Next(s, LockStep(x)), steps);
    MineThen(Next(s, LockStep(x)), steps, s.posts - s.taken);
    var u := Exec(Next(s, LockStep(x)), steps);
    NotInSetup(u, s.posts - s.taken);
    if u.p.d.len == 0 { NoneLeftIsComplete(x, u.p); }
  }

  /** A call that can report is not setting up its transfer. */
  lemma NotInSetup(s: Sys, leftOver: int)
    requires Mine(s, leftOver) && Ordered(s) && s.calls[|s.calls| - 1].end.Ended?
    ensures Known(s.Last(), s.p) && |s.p.d.buf| == |s.Last().buf|
  {}

  lemma NoneLeftIsComplete(x: Xfer, p: Progress)
    requires Known(x, p) && p.d.len == 0
    ensures p.ops == FullTrace(x, p.d.buf)
  {
    if Underway(x, p) { assert p.d.ptr == |x.buf| && x.buf[..p.d.ptr] == x.buf; }
  }

  /** s can go on so that call i reports ok. */
  ghost predicate CanReport(s: Sys, i: nat, ok: bool)
  {
    exists steps :: i < |Exec(s, steps).calls| && Exec(s, steps).calls[i].end == Reported(ok)
  }

  /**
   * Once another call may get the lock, the report may go either way, whatever has become of the transfer: a completed
   * one is reported as a failure as soon as another call has stored its length, and one that was given up as a success
   * as soon as the other call's last octet is out.
   */
  lemma ReportIsAnyones(s: Sys, i: nat)
    requires Ordered(s) && !s.faulted && s.stage == Unlocked && i < |s.calls| && s.calls[i].end == Ended(true)
    ensures CanReport(s, i, true) && CanReport(s, i, false)
  {
    hide Reaches, CanReport;
    var y := Xfer(Wr, 0, [0]);
    var s0 := Next(s, LockStep(y));
    ReachesItself(s0);
    var t := SetUp(s0, s0);
    ReachesNext(s0, t, ReportStep(i));
    Reporting(s, y, Next(t, ReportStep(i)), i, false);
    ReachesNext(s0, t, Ev());
    var t1 := Next(t, Ev());
    ReachesNext(s0, t1, Ev());
    var t2 := Next(t1, Ev());
    ReachesNext(s0, t2, ReportStep(i));
    Reporting(s, y, Next(t2, ReportStep(i)), i, true);
  }

  lemma Reporting(s: Sys, y: Xfer, u: Sys, i: nat, ok: bool)
    requires Reaches(Next(s, LockStep(y)), u) && i < |u.calls| && u.calls[i].end == Reported(ok)
    ensures CanReport(s, i, ok)
  {
    var steps :| NoLock(steps) && NoEnd(steps) && Exec(Next(s, LockStep(y)), steps) == u;
    ExecThen(s, [LockStep(y)], steps);
    ExecNext(s, [], LockStep(y));
    assert [] + [LockStep(y)] == [LockStep(y)];
  }

  /** One call from the reset state to the end of its wait, with the interrupts qs. */
  function OneCall(x: Xfer, qs: seq<Irq>): seq<Step>
  {
    [LockStep(x)] + SixStores() + Irqs(qs) + [EndStep(true)]
  }

  function SixStores(): seq<Step> { [StoreStep, StoreStep, StoreStep, StoreStep, StoreStep, StoreStep] }

  function Irqs(qs: seq<Irq>): (steps: seq<Step>)
    ensures |steps| == |qs| && forall i :: 0 <= i < |qs| ==> steps[i] == IrqStep(qs[i])
  {
    seq(|qs|, i requires 0 <= i < |qs| => IrqStep(qs[i]))
  }

  lemma SixStoresRun(x: Xfer)
    requires x.Valid()
    ensures Exec(Reset(), [LockStep(x)] + SixStores())
         == Sys(Progress(Begin(x), [], 0, 0, false), Waiting, [Call(x, Going)], false, 1, 0, 0, 0)
  {
    hide Next;
    var three := [StoreStep, StoreStep, StoreStep];
    assert three + three == SixStores() && [] + [LockStep(x)] == [LockStep(x)];
    ExecThen(Reset(), [LockStep(x)], three + three);
    ExecNext(Reset(), [], LockStep(x));
    FirstLock(x);
    var s0 := Next(Reset(), LockStep(x));
    ExecThen(s0, three, three);
    ThreeRun(s0);
    ThreeRun(Exec(s0, three));
  }

  lemma FirstLock(x: Xfer)
    requires x.Valid()
    ensures Next(Reset(), LockStep(x)) == Reset().(stage := Setup(0), calls := [Call(x, Going)])
  {}

  lemma ThreeRun(s: Sys)
    requires s.calls != [] && s.Last().Valid() && !s.faulted && s.stage.Setup? && s.stage.k in {0, 3}
    ensures Exec(s, [StoreStep, StoreStep, StoreStep]) == AfterThree(s)
  {
    hide Exec, Next;
    ThreeNext(s);
    ExecNext(s, [], StoreStep);
    ExecNext(s, [StoreStep], StoreStep);
    ExecNext(s, [StoreStep, StoreStep], StoreStep);
    ExecNone(s);
    assert [] + [StoreStep] == [StoreStep] && [StoreStep] + [StoreStep] == [StoreStep, StoreStep];
    assert [StoreStep, StoreStep] + [StoreStep] == [StoreStep, StoreStep, StoreStep];
  }

  lemma ThreeNext(s: Sys)
    requires s.calls != [] && s.Last().Valid() && !s.faulted && s.stage.Setup? && s.stage.k in {0, 3}
    ensures Next(Next(Next(s, StoreStep), StoreStep), StoreStep) == AfterThree(s)
  {}

  lemma ExecNone(s: Sys)
    ensures Exec(s, []) == s
  {}

  /** The interrupts of a transfer, as in Transfer(). */
  lemma {:induction false} IrqsRun(x: Xfer, qs: seq<Irq>)
    requires x.Valid()
    ensures var s, p := Exec(Reset(), [LockStep(x)] + SixStores() + Irqs(qs)), Transfer(x, qs);
            s == Sys(p, Waiting, [Call(x, Going)], false, 1, 0, p.posts, 0)
  {
    hide Next, RawHandle, Handle, Advance, Underway, Over, Exec, SixStores;
    var start := [LockStep(x)] + SixStores();
    if qs == [] {
      assert start + Irqs(qs) == start;
      SixStoresRun(x);
    } else {
      var before, q := qs[..|qs| - 1], qs[|qs| - 1];
      IrqsRun(x, before);
      assert start + Irqs(qs) == (start + Irqs(before)) + [IrqStep(q)];
      ExecNext(Reset(), start + Irqs(before), IrqStep(q));
      IrqRuns(Exec(Reset(), start + Irqs(before)), q);
    }
  }

  /** An interrupt advances a record in order; while the interrupts are disabled, nothing happens either way. */
  lemma IrqRuns(s: Sys, q: Irq)
    requires !s.faulted && Inv(s.p.d)
    ensures Next(s, IrqStep(q)) == s.(p := Advance(s.p, q), posts := s.posts + Advance(s.p, q).posts - s.p.posts)
  {
    hide RawHandle;
    AfterIrqAdvances(s, q);
    if s.p.d.state == Idle { assert s.p.ops + [] == s.p.ops; }
  }

  /** Any transfer that is over, by whatever interrupts, in the first call after initialisation. */
  lemma FirstCall(x: Xfer, qs: seq<Irq>)
    requires x.Valid() && Transfer(x, qs).d.state == Idle
    ensures var s := Exec(Reset(), OneCall(x, qs));
            && s.p == Transfer(x, qs) && s.stage == Unlocked && s.calls == [Call(x, Ended(true))] && Ordered(s)
            && !s.faulted
  {
    IrqsRun(x, qs);
    TransferCorrect(x, qs);
    ExecNext(Reset(), [LockStep(x)] + SixStores() + Irqs(qs), EndStep(true));
    PostsConserved(OneCall(x, qs));
  }

  /** Without any timeout: a call given up before any octet has passed may report success. */
  lemma FalseSuccessExample(x: Xfer)
    requires x.Valid()
    ensures var s := Exec(Reset(), OneCall(x, [ErrorIrq]));
            && s.calls == [Call(x, Ended(true))] && s.p.aborted && s.p.ops == [] && s.p.d.len == |x.buf|
            && CanReport(s, 0, true)
  {
    hide Exec, CanReport;
    assert Transfer(x, [ErrorIrq]) == Advance(Transfer(x, []), ErrorIrq) by { assert [ErrorIrq][..0] == []; }
    FirstCall(x, [ErrorIrq]);
    ReportIsAnyones(Exec(Reset(), OneCall(x, [ErrorIrq])), 0);
  }

  /** And a call whose transfer a bus always ready has completed may report failure. */
  lemma FalseFailureExample(x: Xfer, rxs: seq<int>)
    requires x.Valid() && |rxs| == TotalSteps(x)
    ensures var s := Exec(Reset(), OneCall(x, Ready(rxs)));
            && s.calls == [Call(x, Ended(true))] && !s.p.aborted && |s.p.d.buf| == |x.buf|
            && s.p.ops == FullTrace(x, s.p.d.buf) && s.p.d.len == 0
            && CanReport(s, 0, false)
  {
    hide Exec, CanReport;
    ReadyCompletes(x, rxs);
    TransferCorrect(x, Ready(rxs));
    FirstCall(x, Ready(rxs));
    ReportIsAnyones(Exec(Reset(), OneCall(x, Ready(rxs))), 0);
  }

  /** A call whose wait has timed out reports failure, whatever is in the record. */
  lemma TimeoutReportsFailure(s: Sys, i: nat)
    requires Enabled(s, ReportStep(i)) && s.calls[i].end == Ended(false)
    ensures Next(s, ReportStep(i)).calls[i] == Call(s.calls[i].x, Reported(false))
  {}

  /**
   * Both conditions can fail: after a timeout in the first call the next set-up is not safe; and when the transfer is
   * then given up, a completion is left over that a later wait may take for its own.
   */
  lemma TimeoutExample(x: Xfer, y: Xfer)
    requires x.Valid() && y.Valid()
    ensures var s := Exec(Reset(), [LockStep(x)] + SixStores() + [EndStep(false)]);
            Enabled(s, LockStep(y)) && !SetupSafe(s)
    ensures var s := Exec(Reset(), [LockStep(x)] + SixStores() + [EndStep(false)] + [IrqStep(ErrorIrq)]);
            Enabled(s, LockStep(y)) && SetupSafe(s) && !TakesOwn(s, y)
  {
    hide SixStores, SetupSafe, TakesOwn;
    var start := [LockStep(x)] + SixStores();
    SixStoresRun(x);
    ExecNext(Reset(), start, EndStep(false));
    ExecNext(Reset(), start + [EndStep(false)], IrqStep(ErrorIrq));
    PostsConserved(start + [EndStep(false)]);
    PostsConserved(start + [EndStep(false)] + [IrqStep(ErrorIrq)]);
    SetupSafeIff(Exec(Reset(), start + [EndStep(false)]));
    SetupSafeIff(Exec(Reset(), start + [EndStep(false)] + [IrqStep(ErrorIrq)]));
    TakesOwnIff(Exec(Reset(), start + [EndStep(false)] + [IrqStep(ErrorIrq)]), y);
  }

  // ----- runs without timeouts -----

  predicate NoTimeout(steps: seq<Step>) { forall i :: 0 <= i < |steps| ==> steps[i] != EndStep(false) }

  /**
   * Between calls the interrupts are disabled and no completion is left over; a call in progress has none but its own.
   */
  ghost predicate Tidy(s: Sys)
  {
    if s.stage == Unlocked then !s.faulted && !s.p.d.irqEn && s.taken == s.posts else Mine(s, 0)
  }

  lemma TidyStays(s: Sys, step: Step)
    requires Tidy(s) && Ordered(s) && step != EndStep(false)
    ensures Tidy(Next(s, step))
  {
    if step.LockStep? {
      if Enabled(s, step) { LockIsMine(s, step.x); }
    } else if s.stage == Unlocked {
    } else if step.EndStep? && Enabled(s, step) {
      MineIsOwn(s);
    } else {
      MineStays(s, step, 0);
      StillLocked(s, step);
    }
  }

  lemma StillLocked(s: Sys, step: Step)
    requires s.stage != Unlocked && !(step.EndStep? && Enabled(s, step))
    ensures Next(s, step).stage != Unlocked
  {}

  /**
   * As long as no wait has timed out, no memory outside a buffer is accessed, every call gets the lock with the
   * interrupts disabled and no completion left over, and so every completion taken is the call's own.
   */
  lemma {:induction false} TidyWithoutTimeouts(steps: seq<Step>)
    requires NoTimeout(steps)
    ensures var s := Exec(Reset(), steps);
            && Tidy(s) && !s.faulted && s.overwritten == 0
            && (s.stage == Unlocked ==> !s.p.d.irqEn && s.taken == s.posts)
  {
    PostsConserved(steps);
    if steps != [] {
      var before := steps[..|steps| - 1];
      TidyWithoutTimeouts(before);
      PostsConserved(before);
      TidyStays(Exec(Reset(), before), steps[|steps| - 1]);
    }
  }
}
