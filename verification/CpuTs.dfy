/**
 * Timestamps (cpu_core.c): a timer of few bits, extended in software by adding up the differences between readings.
 * The timer is read as the true number of ticks modulo its range.
 */
module CpuTs {
  import opened Arith

  const U64: int := 0x1_0000_0000_0000_0000

  /** An accumulated timestamp and the timer reading it was last brought up to. */
  datatype Ext = Ext(accum: int, prev: int)

  /** What a register of some range keeps of a number. */
  function Keep(x: int, range: int): (k: int)
    requires range > 0
    ensures 0 <= k < range
  {
    x % range
  }

  lemma KeepAdds(x: int, y: int, range: int)
    requires range > 0
    ensures Keep(Keep(x, range) + y, range) == Keep(x + y, range)
  {
    ModOfSum(range, x, y);
  }

  /** One reading of a timer of range tmr into an accumulator of range acc. */
  function Accumulate(e: Ext, reading: int, tmr: int, acc: int): Ext
    requires tmr > 0 && acc > 0
  {
    Ext(Keep(e.accum + Keep(reading - e.prev, tmr), acc), reading)
  }

  /** The accumulator after readings at the true times ts[1..], initialised at ts[0]. */
  function Extended(ts: seq<int>, tmr: int, acc: int): Ext
    requires tmr > 0 && acc > 0 && |ts| >= 1
  {
    if |ts| == 1 then Ext(0, Keep(ts[0], tmr))
    else Accumulate(Extended(ts[..|ts| - 1], tmr, acc), Keep(ts[|ts| - 1], tmr), tmr, acc)
  }

  /** Whole timer ranges that went by unseen between readings. */
  function Missed(ts: seq<int>, tmr: int): int
    requires tmr > 0 && |ts| >= 1
  {
    if |ts| == 1 then 0
    else Missed(ts[..|ts| - 1], tmr) + (ts[|ts| - 1] - ts[|ts| - 2]) / tmr
  }

  /** Time that went by, less the ranges missed. */
  function Seen(elapsed: int, missed: int, tmr: int): int
  {
    elapsed - tmr * missed
  }

  lemma SeenAdds(elapsed: int, missed: int, elapsed': int, missed': int, tmr: int)
    ensures Seen(elapsed, missed, tmr) + Seen(elapsed', missed', tmr) == Seen(elapsed + elapsed', missed + missed', tmr)
  {
    MulAdd(tmr, missed, missed');
  }

  /** The difference of two readings is the true difference less the whole ranges. */
  lemma ReadingDifference(t0: int, t1: int, tmr: int)
    requires tmr > 0
    ensures Keep(Keep(t1, tmr) - Keep(t0, tmr), tmr) == Seen(t1 - t0, (t1 - t0) / tmr, tmr)
  {
    ModOfSum(tmr, t1, -(t0 % tmr));
    DivMod(t0, tmr);
    MulSub(tmr, 0, t0 / tmr);
    ModAddMultiple(tmr, t1 - t0 % tmr, -(t0 / tmr));
    DivMod(t1 - t0, tmr);
  }

  /** One reading, from a timestamp that is the time since start less the ranges missed. */
  lemma AccumulateExact(e: Ext, start: int, t0: int, t1: int, missed: int, tmr: int, acc: int)
    requires tmr > 0 && acc > 0
    requires e == Ext(Keep(Seen(t0 - start, missed, tmr), acc), Keep(t0, tmr))
    ensures Accumulate(e, Keep(t1, tmr), tmr, acc)
         == Ext(Keep(Seen(t1 - start, missed + (t1 - t0) / tmr, tmr), acc), Keep(t1, tmr))
  {
    hide Seen, Keep;
    var missed' := (t1 - t0) / tmr;
    ReadingDifference(t0, t1, tmr);
    SeenAdds(t0 - start, missed, t1 - t0, missed', tmr);
    KeepAdds(Seen(t0 - start, missed, tmr), Seen(t1 - t0, missed', tmr), acc);
  }

  /** In every run the timestamp is the true elapsed time less the ranges missed. */
  lemma {:induction false} ExtendedExact(ts: seq<int>, tmr: int, acc: int)
    requires tmr > 0 && acc > 0 && |ts| >= 1
    ensures var last := ts[|ts| - 1];
            && Extended(ts, tmr, acc).prev == Keep(last, tmr)
            && Extended(ts, tmr, acc).accum == Keep(Seen(last - ts[0], Missed(ts, tmr), tmr), acc)
  {
    hide Accumulate, Seen, Keep;
    if |ts| > 1 {
      var us := ts[..|ts| - 1];
      ExtendedExact(us, tmr, acc);
      AccumulateExact(Extended(us, tmr, acc), ts[0], ts[|ts| - 2], ts[|ts| - 1], Missed(us, tmr), tmr, acc);
    } else {
      SeenAll(0, tmr);
      KeepZero(acc);
    }
  }

  lemma KeepZero(range: int)
    requires range > 0
    ensures Keep(0, range) == 0
  {}

  lemma SeenAll(elapsed: int, tmr: int)
    ensures Seen(elapsed, 0, tmr) == elapsed
  {}

  lemma {:induction false} NothingMissed(ts: seq<int>, tmr: int)
    requires tmr > 0 && |ts| >= 1 && forall i :: 0 < i < |ts| ==> 0 <= ts[i] - ts[i - 1] < tmr
    ensures Missed(ts, tmr) == 0
  {
    if |ts| > 1 {
      NothingMissed(ts[..|ts| - 1], tmr);
      ModUnique(tmr, 0, ts[|ts| - 1] - ts[|ts| - 2]);
    }
  }

  /** Read more often than the timer wraps, the timestamp is the true elapsed time in the accumulator's range. */
  lemma TimestampIsElapsed(ts: seq<int>, tmr: int, acc: int)
    requires tmr > 0 && acc > 0 && |ts| >= 1
    requires forall i :: 0 < i < |ts| ==> 0 <= ts[i] - ts[i - 1] < tmr
    ensures Extended(ts, tmr, acc).accum == (ts[|ts| - 1] - ts[0]) % acc
  {
    ExtendedExact(ts, tmr, acc);
    NothingMissed(ts, tmr);
    SeenAll(ts[|ts| - 1] - ts[0], tmr);
  }

  /**
   * However it is read, the timestamp agrees with the elapsed time in the timer's own bits, and it is the elapsed
   * time if and only if the missed ranges add up to a multiple of what the accumulator can hold of them.
   */
  lemma TimestampIsElapsedIff(ts: seq<int>, tmr: int, k: int)
    requires tmr > 0 && k > 0 && |ts| >= 1
    ensures tmr * k > 0
    ensures var e, elapsed := Extended(ts, tmr, tmr * k), ts[|ts| - 1] - ts[0];
            && e.accum % tmr == elapsed % tmr
            && (e.accum == elapsed % (tmr * k) <==> Missed(ts, tmr) % k == 0)
  {
    MulAtLeast(tmr, k);
    var missed, elapsed := Missed(ts, tmr), ts[|ts| - 1] - ts[0];
    ExtendedExact(ts, tmr, tmr * k);
    ModOfMod(tmr, k, elapsed - tmr * missed);
    MulSub(tmr, 0, missed);
    ModAddMultiple(tmr, elapsed, -missed);
    ModCongruent(tmr * k, elapsed, elapsed - tmr * missed);
    MultipleOfProduct(tmr, k, missed);
  }

  lemma MultipleOfProduct(d: int, k: int, x: int)
    requires d > 0 && k > 0
    ensures d * k > 0
    ensures (d * x) % (d * k) == 0 <==> x % k == 0
  {
    MulAtLeast(d, k);
    DivMod(x, k);
    MulAdd(d, k * (x / k), x % k);
    MulAssoc(d, k, x / k);
    MulMonotonic(d, 0, x % k);
    MulMonotonic(d, x % k, k - 1);
    MulSub(d, k, 1);
    ModUnique(d * k, x / k, d * (x % k));
    if x % k > 0 { MulAtLeast(d, x % k); }
  }

  /** The timestamp unit, for a timer of the range tmr. */
  class Timestamps {
    const tmr: int
    var ts32: Ext
    var ts64: Ext

    /** CPU_TS_Init(). */
    constructor (tmr: int, reading: int)
      requires tmr > 0
      ensures this.tmr == tmr && ts32 == ts64 == Ext(0, reading)
    {
      this.tmr := tmr;
      ts32, ts64 := Ext(0, reading), Ext(0, reading);
    }

    /** CPU_TS_Get32(): a timer of 32 bits or more is not extended. */
    method Get32(reading: int) returns (ts: int)
      requires tmr > 0 && 0 <= reading < tmr
      modifies this`ts32
      ensures if tmr >= U32 then ts == reading % U32 && ts32 == old(ts32)
              else ts32 == Accumulate(old(ts32), reading, tmr, U32) && ts == ts32.accum
    {
      if tmr >= U32 {
        ts := reading % U32;
      } else {
        var delta := (reading - ts32.prev) % tmr;
        ts32 := Ext((ts32.accum + delta) % U32, reading);
        ts := ts32.accum;
      }
    }

    /** CPU_TS_Get64(). */
    method Get64(reading: int) returns (ts: int)
      requires tmr > 0 && 0 <= reading < tmr
      modifies this`ts64
      ensures if tmr >= 0x1_0000_0000_0000_0000 then ts == reading % 0x1_0000_0000_0000_0000 && ts64 == old(ts64)
              else ts64 == Accumulate(old(ts64), reading, tmr, 0x1_0000_0000_0000_0000) && ts == ts64.accum
    {
      if tmr >= U64 {
        ts := reading % U64;
      } else {
        var delta := (reading - ts64.prev) % tmr;
        ts64 := Ext((ts64.accum + delta) % U64, reading);
        ts := ts64.accum;
      }
    }

    /** CPU_TS_Update(): both timestamps, each with a reading of its own. */
    method Update(reading32: int, reading64: int)
      requires tmr > 0 && 0 <= reading32 < tmr && 0 <= reading64 < tmr
      modifies this`ts32, this`ts64
      ensures ts32 == if tmr >= U32 then old(ts32) else Accumulate(old(ts32), reading32, tmr, U32)
      ensures ts64 == if tmr >= 0x1_0000_0000_0000_0000 then old(ts64)
                      else Accumulate(old(ts64), reading64, tmr, 0x1_0000_0000_0000_0000)
    {
      if tmr < U32 { var _ := Get32(reading32); }
      if tmr < U64 { var _ := Get64(reading64); }
    }
  }
}
