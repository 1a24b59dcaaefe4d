/**
 * Measurement of the time that interrupts stay disabled (cpu_core.c): nested critical sections, of which only the
 * outermost is timed, by differences of readings of a timer of range tmr.
 */
module IntDisMeas {
  import opened Arith

  const U16: int := 0x1_0000

  /** A critical section is entered or left, with the timer's reading at that point; or the current maximum is reset. */
  datatype Ev = Enter(reading: int) | Exit(reading: int) | ResetCur

  /** CPU_IntDisNestCtr, CPU_IntDisMeasStart_cnts, CPU_IntDisMeasMaxCur_cnts and CPU_IntDisMeasMax_cnts. */
  datatype Meas = Meas(nest: int, start: int, maxCur: int, max: int)

  /** CPU_IntDisMeasStart(). */
  function OnEnter(m: Meas, reading: int): Meas
  {
    m.(start := if m.nest == 0 then reading else m.start, nest := (m.nest + 1) % U16)
  }

  function Duration(from: int, to: int, tmr: int): (d: int)
    requires tmr > 0
    ensures 0 <= d < tmr
  {
    (to - from) % tmr
  }

  /** The duration is the time elapsed, if that is less than the timer's range. */
  lemma DurationIsElapsed(t: int, t': int, tmr: int)
    requires tmr > 0 && t <= t' < t + tmr
    ensures Duration(t % tmr, t' % tmr, tmr) == t' - t
  {
    ModOfSum(tmr, t', -(t % tmr));
    DivMod(t, tmr);
    MulSub(tmr, 0, t / tmr);
    ModAddMultiple(tmr, t' - t % tmr, -(t / tmr));
    ModUnique(tmr, 0, t' - t);
  }

  /** CPU_IntDisMeasStop(). */
  function OnExit(m: Meas, reading: int, tmr: int): Meas
    requires tmr > 0
  {
    var nest := (m.nest - 1) % U16;
    if nest != 0 then m.(nest := nest)
    else
      var time := Duration(m.start, reading, tmr);
      Meas(nest, m.start, if m.maxCur < time then time else m.maxCur, if m.max < time then time else m.max)
  }

  function On(m: Meas, ev: Ev, tmr: int): Meas
    requires tmr > 0
  {
    match ev
    case Enter(r) => OnEnter(m, r)
    case Exit(r) => OnExit(m, r, tmr)
    case ResetCur => m.(maxCur := 0)
  }

  /** The state after the first n events, from the state that initialisation leaves. */
  function After(evs: seq<Ev>, n: nat, tmr: int): Meas
    requires tmr > 0 && n <= |evs|
  {
    if n == 0 then Meas(0, 0, 0, 0) else On(After(evs, n - 1, tmr), evs[n - 1], tmr)
  }

  // ----- sections, told from the events alone -----

  /** Sections open after n events. */
  function Depth(evs: seq<Ev>, n: nat): int
    requires n <= |evs|
  {
    if n == 0 then 0
    else Depth(evs, n - 1) + (match evs[n - 1] case Enter(_) => 1 case Exit(_) => -1 case ResetCur => 0)
  }

  /** Entries and exits match, no deeper than the counter can count. */
  ghost predicate Nested(evs: seq<Ev>)
  {
    forall n :: 0 <= n <= |evs| ==> 0 <= Depth(evs, n) < 0x1_0000
  }

  /** Event i opens an outermost section, which is still open after n events. */
  ghost predicate OpenSince(evs: seq<Ev>, i: int, n: int)
  {
    && 0 <= i < n <= |evs|
    && evs[i].Enter? && Depth(evs, i) == 0
    && forall k :: i < k <= n ==> Depth(evs, k) > 0
  }

  /** Event i opens an outermost section that event j closes. */
  ghost predicate Section(evs: seq<Ev>, i: int, j: int)
  {
    && 0 <= i < j < |evs|
    && OpenSince(evs, i, j)
    && evs[j].Exit? && Depth(evs, j + 1) == 0
  }

  function Time(evs: seq<Ev>, i: int, j: int, tmr: int): int
    requires tmr > 0 && 0 <= i < j < |evs| && evs[i].Enter? && evs[j].Exit?
  {
    Duration(evs[i].reading, evs[j].reading, tmr)
  }

  /** m is the longest time of the outermost sections closed by events from..n, 0 if there is none. */
  ghost predicate Longest(m: int, evs: seq<Ev>, from: int, n: int, tmr: int)
    requires tmr > 0
  {
    && m >= 0
    && (forall i, j :: Section(evs, i, j) && from <= j < n ==> Time(evs, i, j, tmr) <= m)
    && (m == 0 || exists i, j :: Section(evs, i, j) && from <= j < n && Time(evs, i, j, tmr) == m)
  }

  /** The first event behind the last reset among the first n. */
  function SinceReset(evs: seq<Ev>, n: nat): (k: nat)
    requires n <= |evs|
    ensures k <= n
  {
    if n == 0 then 0 else if evs[n - 1].ResetCur? then n else SinceReset(evs, n - 1)
  }

  /** Two outermost sections closed by the same event are one. */
  lemma SectionUnique(evs: seq<Ev>, i: int, i': int, j: int)
    requires Section(evs, i, j) && Section(evs, i', j)
    ensures i == i'
  {
    assert Depth(evs, i) == 0 && Depth(evs, i') == 0;
  }

  ghost predicate Tracks(m: Meas, evs: seq<Ev>, n: nat, tmr: int)
    requires tmr > 0 && n <= |evs|
  {
    && m.nest == Depth(evs, n)
    && (m.nest > 0 ==> exists i :: OpenSince(evs, i, n) && m.start == evs[i].reading)
    && Longest(m.max, evs, 0, n, tmr)
    && Longest(m.maxCur, evs, SinceReset(evs, n), n, tmr)
  }

  lemma LongestExtends(m: int, m': int, evs: seq<Ev>, from: int, n: nat, tmr: int, i: int)
    requires tmr > 0 && n < |evs| && from <= n && Longest(m, evs, from, n, tmr) && Section(evs, i, n)
    requires m' == if m < Time(evs, i, n, tmr) then Time(evs, i, n, tmr) else m
    ensures Longest(m', evs, from, n + 1, tmr)
  {
    forall a, b | Section(evs, a, b) && from <= b < n + 1 ensures Time(evs, a, b, tmr) <= m' {
      if b == n { SectionUnique(evs, a, i, n); }
    }
    if m' == Time(evs, i, n, tmr) {
      assert Section(evs, i, n) && from <= n < n + 1;
    } else if m' != 0 {
      var a, b :| Section(evs, a, b) && from <= b < n && Time(evs, a, b, tmr) == m;
      assert Section(evs, a, b) && from <= b < n + 1;
    }
  }

  lemma LongestStays(m: int, evs: seq<Ev>, from: int, n: nat, tmr: int)
    requires tmr > 0 && n < |evs| && from <= n && Longest(m, evs, from, n, tmr)
    requires !evs[n].Exit? || Depth(evs, n + 1) != 0
    ensures Longest(m, evs, from, n + 1, tmr)
  {
    forall a, b | Section(evs, a, b) && from <= b < n + 1 ensures Time(evs, a, b, tmr) <= m {
      assert b != n;
    }
    if m != 0 {
      var a, b :| Section(evs, a, b) && from <= b < n && Time(evs, a, b, tmr) == m;
      assert Section(evs, a, b) && from <= b < n + 1;
    }
  }

  /** An event keeps the count of open sections and the reading at which the outermost one was entered. */
  lemma StepTracksOpen(m: Meas, evs: seq<Ev>, n: nat, tmr: int)
    requires tmr > 0 && n < |evs| && Nested(evs) && m.nest == Depth(evs, n)
    requires m.nest > 0 ==> exists i :: OpenSince(evs, i, n) && m.start == evs[i].reading
    ensures var m' := On(m, evs[n], tmr);
            && m'.nest == Depth(evs, n + 1)
            && (m'.nest > 0 ==> exists i :: OpenSince(evs, i, n + 1) && m'.start == evs[i].reading)
  {
    var m' := On(m, evs[n], tmr);
    assert 0 <= Depth(evs, n) < U16 && 0 <= Depth(evs, n + 1) < U16;
    if m'.nest > 0 {
      if m.nest == 0 {
        assert OpenSince(evs, n, n + 1);
      } else {
        var i :| OpenSince(evs, i, n) && m.start == evs[i].reading;
        assert OpenSince(evs, i, n + 1);
      }
    }
  }

  /** The exit that closes an outermost section accounts for its time. */
  lemma StepTracksClose(m: Meas, evs: seq<Ev>, n: nat, tmr: int)
    requires tmr > 0 && n < |evs| && Nested(evs) && Tracks(m, evs, n, tmr)
    requires evs[n].Exit? && Depth(evs, n + 1) == 0
    ensures var m' := On(m, evs[n], tmr);
            Longest(m'.max, evs, 0, n + 1, tmr) && Longest(m'.maxCur, evs, SinceReset(evs, n), n + 1, tmr)
  {
    var m' := On(m, evs[n], tmr);
    var i :| OpenSince(evs, i, n) && m.start == evs[i].reading;
    assert Section(evs, i, n);
    LongestExtends(m.max, m'.max, evs, 0, n, tmr, i);
    LongestExtends(m.maxCur, m'.maxCur, evs, SinceReset(evs, n), n, tmr, i);
  }

  lemma LongestEmpty(evs: seq<Ev>, n: nat, tmr: int)
    requires tmr > 0
    ensures Longest(0, evs, n, n, tmr)
  {
  }

  lemma StepTracks(m: Meas, evs: seq<Ev>, n: nat, tmr: int)
    requires tmr > 0 && n < |evs| && Nested(evs) && Tracks(m, evs, n, tmr)
    ensures Tracks(On(m, evs[n], tmr), evs, n + 1, tmr)
  {
    hide Longest, OpenSince, Section;
    StepTracksOpen(m, evs, n, tmr);
    if evs[n].Exit? && Depth(evs, n + 1) == 0 {
      StepTracksClose(m, evs, n, tmr);
    } else {
      LongestStays(m.max, evs, 0, n, tmr);
      LongestStays(m.maxCur, evs, SinceReset(evs, n), n, tmr);
      LongestEmpty(evs, n + 1, tmr);
    }
  }

  /**
   * For every properly nested run, the maximum is the longest time of a completed outermost section, the current
   * maximum is the same since the last reset, and it never exceeds the maximum.
   */
  lemma {:induction false} MaximaCorrect(evs: seq<Ev>, n: nat, tmr: int)
    requires tmr > 0 && n <= |evs| && Nested(evs)
    ensures var m := After(evs, n, tmr);
            && m.nest == Depth(evs, n)
            && Longest(m.max, evs, 0, n, tmr)
            && Longest(m.maxCur, evs, SinceReset(evs, n), n, tmr)
            && m.maxCur <= m.max
  {
    Tracked(evs, n, tmr);
    var m := After(evs, n, tmr);
    if m.maxCur != 0 {
      var i, j :| Section(evs, i, j) && SinceReset(evs, n) <= j < n && Time(evs, i, j, tmr) == m.maxCur;
      assert 0 <= j < n;
    }
  }

  /**
   * A reset reads the current maximum at one point and clears it at a later one: what it read is the maximum up to the
   * clearing if and only if no outermost section that ended in between was longer. Otherwise that one is lost.
   */
  lemma ResetMissesNothingIff(evs: seq<Ev>, n: nat, k: nat, tmr: int)
    requires tmr > 0 && n <= k <= |evs| && Nested(evs) && (forall i :: n <= i < k ==> !evs[i].ResetCur?)
    ensures After(evs, n, tmr).maxCur == After(evs, k, tmr).maxCur
            <==> forall i, j :: Section(evs, i, j) && n <= j < k ==> Time(evs, i, j, tmr) <= After(evs, n, tmr).maxCur
  {
    hide OpenSince, Longest, After, Nested, SinceReset;
    MaximaCorrect(evs, n, tmr);
    MaximaCorrect(evs, k, tmr);
    SameReset(evs, n, k);
    LongestGrows(After(evs, n, tmr).maxCur, After(evs, k, tmr).maxCur, evs, SinceReset(evs, n), n, k, tmr);
  }

  lemma LongestGrows(m: int, m': int, evs: seq<Ev>, from: int, n: int, k: int, tmr: int)
    requires tmr > 0 && from <= n <= k && Longest(m, evs, from, n, tmr) && Longest(m', evs, from, k, tmr)
    ensures m == m' <==> forall i, j :: Section(evs, i, j) && n <= j < k ==> Time(evs, i, j, tmr) <= m
  {
    hide Duration;
    if m' != 0 {
      var i, j :| Section(evs, i, j) && from <= j < k && Time(evs, i, j, tmr) == m';
      assert j < n ==> m' <= m;
    }
    if m != 0 {
      var i, j :| Section(evs, i, j) && from <= j < n && Time(evs, i, j, tmr) == m;
      assert m <= m';
    }
  }

  lemma {:induction false} SameReset(evs: seq<Ev>, n: nat, k: nat)
    requires n <= k <= |evs| && forall i :: n <= i < k ==> !evs[i].ResetCur?
    ensures SinceReset(evs, k) == SinceReset(evs, n)
    decreases k
  {
    if n < k { SameReset(evs, n, k - 1); }
  }

  lemma {:induction false} Tracked(evs: seq<Ev>, n: nat, tmr: int)
    requires tmr > 0 && n <= |evs| && Nested(evs)
    ensures Tracks(After(evs, n, tmr), evs, n, tmr)
  {
    hide OpenSince, Section, Longest;
    if n == 0 {
      LongestEmpty(evs, 0, tmr);
    } else {
      Tracked(evs, n - 1, tmr);
      StepTracks(After(evs, n - 1, tmr), evs, n - 1, tmr);
    }
  }

  // ----- overhead -----

  /** CPU_IntDisMeasMaxCalc(). */
  function MaxCalc(time: int, ovrhd: int): int
  {
    if time > ovrhd then time - ovrhd else 0
  }

  function Sum(times: seq<int>): int
  {
    if times == [] then 0 else Sum(times[..|times| - 1]) + times[|times| - 1]
  }

  /** The modular durations of the calibration's empty sections. */
  function Durations(readings: seq<(int, int)>, tmr: int): (ds: seq<int>)
    requires tmr > 0
    ensures |ds| == |readings|
  {
    seq(|readings|, i requires 0 <= i < |readings| => Duration(readings[i].0, readings[i].1, tmr))
  }

  /** Measurement controls, updated in place. */
  class Measurement {
    const tmr: int
    var measCtr: int
    var meas: Meas
    var ovrhd: int

    constructor (tmr: int)
      requires tmr > 0
      ensures this.tmr == tmr && meas == Meas(0, 0, 0, 0)
    {
      this.tmr := tmr;
      measCtr, meas, ovrhd := 0, Meas(0, 0, 0, 0), 0;
    }

    method Start(reading: int)
      modifies this`measCtr, this`meas
      ensures meas == OnEnter(old(meas), reading)
      ensures measCtr == (old(measCtr) + 1) % U16
    {
      measCtr := (measCtr + 1) % U16;
      if meas.nest == 0 { meas := meas.(start := reading); }
      meas := meas.(nest := (meas.nest + 1) % U16);
    }

    method Stop(reading: int)
      requires tmr > 0
      modifies this`meas
      ensures meas == OnExit(old(meas), reading, tmr)
    {
      meas := meas.(nest := (meas.nest - 1) % U16);
      if meas.nest == 0 {
        var time := Duration(meas.start, reading, tmr);
        if meas.maxCur < time { meas := meas.(maxCur := time); }
        if meas.max < time { meas := meas.(max := time); }
      }
    }

    /** CPU_IntDisMeasMaxCurGet(). */
    method MaxCurGet() returns (time: int)
      ensures time == if meas.maxCur > ovrhd then meas.maxCur - ovrhd else 0
    {
      time := MaxCalc(meas.maxCur, ovrhd);
    }

    /** The second critical section of CPU_IntDisMeasMaxCurReset(). */
    method MaxCurClear()
      modifies this`meas
      ensures meas == old(meas).(maxCur := 0)
    {
      meas := meas.(maxCur := 0);
    }

    /** CPU_IntDisMeasMaxCurReset(), when nothing comes between its two critical sections. */
    method MaxCurReset() returns (time: int)
      modifies this`meas
      ensures time == if old(meas).maxCur > ovrhd then old(meas).maxCur - ovrhd else 0
      ensures meas == old(meas).(maxCur := 0)
    {
      time := MaxCurGet();
      MaxCurClear();
    }

    /** A turn of the calibration loop: the time of an empty section. */
    method TimeEmpty(enter: int, exit: int) returns (time: int)
      requires tmr > 0 && meas.nest == 0
      modifies this`measCtr, this`meas
      ensures meas.nest == 0 && time == Duration(enter, exit, tmr)
    {
      meas := meas.(maxCur := 0);
      Start(enter);
      Stop(exit);
      time := meas.maxCur;
    }

    /**
     * CPU_IntDisMeasInit(): the overhead is the average time of empty sections to within half a count if, and for any
     * timer that counts beyond the number of sections only if, neither their sum nor its rounding wraps.
     */
    method Init(readings: seq<(int, int)>)
      requires tmr > 0 && |readings| >= 1
      modifies this
      ensures meas.nest == 0 && meas.maxCur == 0 && meas.max == 0
      ensures var n, total := |readings|, Sum(Durations(readings, tmr));
              && (NoWrap(total, n, tmr) ==> Near(ovrhd, total, n))
              && (tmr > n && Near(ovrhd, total, n) ==> NoWrap(total, n, tmr))
    {
      hide Near, NoWrap, Sum;
      measCtr, meas, ovrhd := 0, Meas(0, 0, 0, 0), 0;
      var total, i := 0, 0;
      ghost var ds := Durations(readings, tmr);
      SumNone(ds, tmr);
      while i < |readings|
        invariant 0 <= i <= |readings| && meas.nest == 0
        invariant total == Sum(ds[..i]) % tmr
      {
        var time := TimeEmpty(readings[i].0, readings[i].1);
        SumNext(ds, i, tmr);
        total := (total + time) % tmr;
        i := i + 1;
      }
      assert ds[..i] == ds;
      SumNonNegative(ds);
      AverageRounds(Sum(ds), |readings|, tmr);
      ovrhd := (total + |readings| / 2) % Wide(tmr) / |readings|;
      meas := meas.(maxCur := 0, max := 0);
    }
  }

  /** Range of the register in which a sum with a 32-bit constant is taken, even for a narrower timer. */
  function Wide(tmr: int): int { if tmr < U32 then U32 else tmr }

  /** Neither the sum of n times nor its rounding wraps. */
  predicate NoWrap(sum: int, n: int, tmr: int) { sum < tmr && sum + n / 2 < Wide(tmr) }

  /** avg is, to within half a count, the average of n times that add up to sum. */
  predicate Near(avg: int, sum: int, n: int) { -n <= 2 * (n * avg - sum) <= n }

  lemma SumNone(ds: seq<int>, tmr: int)
    requires tmr > 0
    ensures Sum(ds[..0]) % tmr == 0
  {}

  lemma SumNext(ds: seq<int>, i: nat, tmr: int)
    requires tmr > 0 && i < |ds|
    ensures (Sum(ds[..i]) % tmr + ds[i]) % tmr == Sum(ds[..i + 1]) % tmr
  {
    assert ds[..i + 1][..i] == ds[..i];
    ModOfSum(tmr, Sum(ds[..i]), ds[i]);
  }

  lemma AverageRounds(sum: int, n: int, tmr: int)
    requires tmr > 0 && n >= 1 && sum >= 0
    ensures var avg := (sum % tmr + n / 2) % Wide(tmr) / n;
            && (NoWrap(sum, n, tmr) ==> Near(avg, sum, n))
            && (tmr > n && Near(avg, sum, n) ==> NoWrap(sum, n, tmr))
  {
    var rounded := (sum % tmr + n / 2) % Wide(tmr);
    DivMod(rounded, n);
    RoundedSum(sum, n, tmr);
  }

  /** A wrap makes the rounded sum too small by the timer's range at least. */
  lemma RoundedSum(sum: int, n: int, tmr: int)
    requires tmr > 0 && n >= 1 && sum >= 0
    ensures var rounded := (sum % tmr + n / 2) % Wide(tmr);
            && (NoWrap(sum, n, tmr) ==> rounded == sum + n / 2)
            && (!NoWrap(sum, n, tmr) ==> rounded <= sum + n / 2 - tmr)
  {
    ModBelow(tmr, sum);
    ModBelow(Wide(tmr), sum % tmr + n / 2);
  }

  lemma ModBelow(d: int, x: int)
    requires d > 0 && x >= 0
    ensures if x < d then x % d == x else x % d <= x - d
  {
    DivMod(x, d);
    if x < d { ModUnique(d, 0, x); } else if x / d >= 1 { MulAtLeast(d, x / d); }
  }

  lemma {:induction false} SumNonNegative(ds: seq<int>)
    requires forall i :: 0 <= i < |ds| ==> ds[i] >= 0
    ensures Sum(ds) >= 0
  {
    if ds != [] { SumNonNegative(ds[..|ds| - 1]); }
  }
}
