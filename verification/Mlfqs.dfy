/** The multi-level feedback queue arithmetic of threads/thread.c: load average, recent CPU
    and priorities, recomputed as the timer ticks.

    Every fixed-point operation below requires that its result fits 32 bits, so that the
    methods verify at all is the claim that no run overflows. */
module Mlfqs {
  import opened Sequences
  import opened Arithmetic
  import opened FixedPoint

  const TIMER_FREQ: nat := 100
  const TIME_SLICE: nat := 4
  const PRI_MIN: int := 0
  const PRI_MAX: int := 63
  const PRI_DEFAULT: int := 31
  const NICE_MAX: int := 20

  /** More threads than this and the bound on recent_cpu no longer fits 32 bits. */
  const MAX_THREADS: nat := 545

  datatype Stats = Stats(recentCpu: Fp, nice: int, priority: int, recentlyUp: bool)

  /** init_thread */
  const NEW: Stats := Stats(0, 0, PRI_DEFAULT, false)

  /** Bound on recent_cpu, T ticks into a second, with N threads. */
  function Bound(n: nat, t: nat): int {
    (240 * n + 20 + t) * ONE
  }

  predicate NiceOk(s: Stats) {
    -NICE_MAX <= s.nice <= NICE_MAX
  }

  predicate Within(s: Stats, n: nat, t: nat) {
    NiceOk(s) && -Bound(n, t) <= s.recentCpu <= Bound(n, t)
  }

  function Clamped(p: int): int {
    if p < PRI_MIN then PRI_MIN else if p > PRI_MAX then PRI_MAX else p
  }

  /** The priority as the source computes it: a quarter of recent_cpu is rounded toward zero
      before the difference is. */
  function Formula(recentCpu: int, nice: int): int {
    Clamped(Trunc(PRI_MAX * ONE - Trunc(recentCpu, 4) - 2 * nice * ONE, ONE))
  }

  /** The priority the formula means: 63 - recent_cpu / 4 - 2 nice, as an exact fraction,
      rounded toward zero once. */
  function Exact(recentCpu: int, nice: int): int {
    Clamped(Trunc(4 * (PRI_MAX - 2 * nice) * ONE - recentCpu, 4 * ONE))
  }

  /** Rounding twice matters: a quarter of recent_cpu is above a whole number by less than the
      smallest fraction there is, and what it leaves of 63 - 2 nice is a positive priority. */
  predicate RoundsUp(recentCpu: int, nice: int) {
    && recentCpu > 0 && recentCpu % 4 != 0 && recentCpu / 4 % ONE == 0
    && 0 < PRI_MAX - 2 * nice - recentCpu / 4 / ONE <= PRI_MAX
  }

  /** The source's priority is the exact one, or one more just when rounding twice matters. */
  lemma FormulaRoundsTwice(recentCpu: int, nice: int)
    ensures Formula(recentCpu, nice) == Exact(recentCpu, nice) + if RoundsUp(recentCpu, nice) then 1 else 0
  {
    hide Trunc;
    var a := PRI_MAX - 2 * nice;
    if recentCpu >= 0 {
      var q := recentCpu / 4;
      var k, m, r := q / ONE, q % ONE, recentCpu % 4;
      assert q == ONE * k + m && recentCpu == 4 * q + r;
      QuotientsDown(a, k, m, r);
      TruncUnique(recentCpu, 4, q);
    } else {
      var c := -recentCpu;
      var q := c / 4;
      var k, m, r := q / ONE, q % ONE, c % 4;
      assert q == ONE * k + m && c == 4 * q + r;
      QuotientsUp(a, k, m, r);
      TruncUnique(recentCpu, 4, -q);
    }
  }

  /** Taking K + M / ONE, and a further R quarters of a unit, from A. */
  lemma QuotientsDown(a: int, k: int, m: int, r: int)
    requires k >= 0 && 0 <= m < ONE && 0 <= r < 4
    ensures Trunc(a * ONE - (ONE * k + m), ONE) == if a - k >= 1 && m > 0 then a - k - 1 else a - k
    ensures Trunc(4 * a * ONE - (4 * (ONE * k + m) + r), 4 * ONE) ==
      if a - k >= 1 && (m > 0 || r > 0) then a - k - 1 else a - k
  {
    hide Trunc;
    TruncUnique(a * ONE - (ONE * k + m), ONE, if a - k >= 1 && m > 0 then a - k - 1 else a - k);
    TruncUnique(4 * a * ONE - (4 * (ONE * k + m) + r), 4 * ONE,
      if a - k >= 1 && (m > 0 || r > 0) then a - k - 1 else a - k);
  }

  /** Adding them to A. */
  lemma QuotientsUp(a: int, k: int, m: int, r: int)
    requires k >= 0 && 0 <= m < ONE && 0 <= r < 4
    ensures Trunc(a * ONE + (ONE * k + m), ONE) == if a + k < 0 && m > 0 then a + k + 1 else a + k
    ensures Trunc(4 * a * ONE + (4 * (ONE * k + m) + r), 4 * ONE) ==
      if a + k < 0 && (m > 0 || r > 0) then a + k + 1 else a + k
  {
    hide Trunc;
    TruncUnique(a * ONE + (ONE * k + m), ONE, if a + k < 0 && m > 0 then a + k + 1 else a + k);
    TruncUnique(4 * a * ONE + (4 * (ONE * k + m) + r), 4 * ONE,
      if a + k < 0 && (m > 0 || r > 0) then a + k + 1 else a + k);
  }

  /** It does matter: with the least positive recent_cpu. */
  lemma RoundingMatters()
    ensures Formula(1, 0) == 63 && Exact(1, 0) == 62
  {
    FormulaRoundsTwice(1, 0);
    TruncUnique(4 * 63 * ONE - 1, 4 * ONE, 62);
  }

  predicate UpToDate(s: Stats) {
    s.priority == Formula(s.recentCpu, s.nice)
  }

  lemma BoundFits(n: nat, t: nat)
    requires n <= MAX_THREADS && t <= TIMER_FREQ
    ensures Fits(Bound(n, t) + ONE / 2) && Fits(-Bound(n, t) - ONE / 2)
  {
  }

  /** The decay coefficient, at most 2N / (2N + 1), so below one. */
  predicate CoefficientOk(c: int, n: nat) {
    0 <= c && c * (2 * n + 1) <= 2 * n * ONE
  }

  /** Dividing a magnitude toward zero does not enlarge it. */
  lemma TruncBound(n: int, d: int, m: int)
    requires d > 0 && m >= 0 && -(d * m) <= n <= d * m
    ensures -m <= Trunc(n, d) <= m
  {
    hide Trunc;
    TruncShort(n, d);
    var q := Trunc(n, d);
    if q > m {
      Scaled(d, m + 1, q);
    }
    if q < -m {
      Scaled(d, q, -m - 1);
    }
  }

  lemma Scaled(d: int, a: int, b: int)
    requires d > 0 && a <= b
    ensures d * a <= d * b
  {
  }

  /** 59/60 of the old load average plus 1/60 of the threads that run or could, which is short
      of the exact value by less than two units and a 60th of 56 for each whole thread of load:
      59/60, too, is rounded down. */
  predicate Averages(was: int, ready: nat, r: int) {
    && r == Trunc(16110 * was, ONE) + Trunc(ready * ONE, 60)
    && 0 <= ONE * (59 * was + ready * ONE - 60 * r) < 120 * ONE + 56 * was
  }

  /** thread_calculate_load_avg: the new load average. */
  function LoadAvg(loadAvg: Fp, ready: nat, ghost n: nat): (r: Fp)
    requires ready <= n <= MAX_THREADS && 0 <= loadAvg <= n * ONE
    ensures 0 <= r <= n * ONE && Averages(loadAvg, ready, r)
  {
    hide Averages;
    LoadError(loadAvg, ready);
    DivInt(FromInt(59), 60);
    DivInt(FromInt(ready), 60);
    assert Trunc(FromInt(59), 60) == 16110;
    LoadTerms(loadAvg, ready, n);
    Add(Mult(Div(FromInt(59), FromInt(60)), loadAvg), Div(FromInt(ready), FromInt(60)))
  }

  lemma LoadError(loadAvg: int, ready: nat)
    requires loadAvg >= 0
    ensures Averages(loadAvg, ready, Trunc(16110 * loadAvg, ONE) + Trunc(ready * ONE, 60))
  {
    hide Trunc;
    TruncShort(16110 * loadAvg, ONE);
    TruncShort(ready * ONE, 60);
  }

  /** Each further thread that could run adds at least 273 units, a 60th of a thread rounded
      down. */
  lemma LoadGrows(loadAvg: Fp, ready: nat, more: nat, n: nat)
    requires ready < more <= n <= MAX_THREADS && 0 <= loadAvg <= n * ONE
    ensures LoadAvg(loadAvg, ready, n) + 273 * (more - ready) <= LoadAvg(loadAvg, more, n)
  {
    hide Trunc, LoadAvg;
    TruncShort(ready * ONE, 60);
    TruncShort(more * ONE, 60);
  }

  lemma LoadTerms(loadAvg: int, ready: nat, n: nat)
    requires ready <= n <= MAX_THREADS && 0 <= loadAvg <= n * ONE
    ensures 0 <= Trunc(16110 * loadAvg, ONE) <= 16110 * n
    ensures 0 <= Trunc(ready * ONE, 60) <= 274 * n
  {
    TruncShort(16110 * loadAvg, ONE);
    TruncShort(ready * ONE, 60);
  }

  /** C is twice the load average over that and one, rounded down. */
  predicate Decays(loadAvg: int, c: int) {
    (2 * loadAvg + ONE) * c <= 2 * loadAvg * ONE < (2 * loadAvg + ONE) * (c + 1)
  }

  /** thread_calculate_load_avg: the decay coefficient that goes with a load average. */
  function Coefficient(loadAvg: Fp, ghost n: nat): (c: Fp)
    requires n <= MAX_THREADS && 0 <= loadAvg <= n * ONE
    ensures CoefficientOk(c, n) && c < ONE && Decays(loadAvg, c)
  {
    CoefficientExact(loadAvg);
    MultInt(loadAvg, 2);
    CoefficientBound(loadAvg, n);
    Div(Mult(loadAvg, FromInt(2)), Add(Mult(loadAvg, FromInt(2)), FromInt(1)))
  }

  lemma CoefficientExact(l: int)
    requires l >= 0
    ensures Decays(l, Trunc(2 * l * ONE, 2 * l + ONE))
  {
    hide Trunc;
    var c := Trunc(2 * l * ONE, 2 * l + ONE);
    TruncShort(2 * l * ONE, 2 * l + ONE);
    assert (2 * l + ONE) * (c + 1) == (2 * l + ONE) * c + (2 * l + ONE);
  }

  lemma CoefficientBound(l: int, n: nat)
    requires n <= MAX_THREADS && 0 <= l <= n * ONE
    ensures CoefficientOk(Trunc(2 * l * ONE, 2 * l + ONE), n) && Trunc(2 * l * ONE, 2 * l + ONE) < ONE
  {
    hide Trunc;
    var c := Trunc(2 * l * ONE, 2 * l + ONE);
    TruncShort(2 * l * ONE, 2 * l + ONE);
    CoefficientArithmetic(c, l, n);
  }

  lemma CoefficientArithmetic(c: int, l: int, n: nat)
    requires 0 <= l <= n * ONE && 0 <= (2 * l + ONE) * c <= 2 * l * ONE
    ensures 0 <= c < ONE && c * (2 * n + 1) <= 2 * n * ONE
  {
    assert (2 * l + ONE) * c == 2 * l * c + ONE * c;
    assert c >= 0 by {
      if c < 0 {
        Scaled(2 * l + ONE, c, -1);
      }
    }
    assert c < ONE by {
      if c >= ONE {
        Scaled(2 * l + ONE, ONE, c);
      }
    }
    assert ONE * c <= 2 * l * (ONE - c);
    assert l * (ONE - c) <= n * ONE * (ONE - c) by {
      Scaled(ONE - c, l, n * ONE);
    }
    assert n * ONE * (ONE - c) == ONE * (n * ONE - n * c);
    assert c * (2 * n + 1) == 2 * (n * c) + c;
  }

  /** thread_calculate_recent_cpu, at the end of a second. */
  function Decayed(s: Stats, coefficient: Fp, ghost n: nat): (r: Stats)
    requires n <= MAX_THREADS && CoefficientOk(coefficient, n) && Within(s, n, TIMER_FREQ)
    ensures Within(r, n, 0) && r == s.(recentCpu := r.recentCpu, recentlyUp := true)
    ensures r.recentCpu == Trunc(coefficient * s.recentCpu, ONE) + s.nice * ONE
  {
    DecayBound(coefficient, s.recentCpu, n);
    BoundFits(n, 0);
    s.(recentCpu := Add(Mult(coefficient, s.recentCpu), FromInt(s.nice)), recentlyUp := true)
  }

  lemma DecayBound(c: int, r: int, n: nat)
    requires CoefficientOk(c, n) && -Bound(n, TIMER_FREQ) <= r <= Bound(n, TIMER_FREQ)
    ensures -(240 * n * ONE) <= Trunc(c * r, ONE) <= 240 * n * ONE
  {
    assert Bound(n, TIMER_FREQ) == 120 * (2 * n + 1) * ONE;
    var b := Bound(n, TIMER_FREQ);
    assert c * b == ONE * (120 * (c * (2 * n + 1)));
    assert c * b <= ONE * (240 * n * ONE);
    assert -(c * b) <= c * r <= c * b by {
      Product(c, r, b);
    }
    TruncBound(c * r, ONE, 240 * n * ONE);
  }

  lemma Product(c: int, r: int, b: int)
    requires c >= 0 && -b <= r <= b
    ensures -(c * b) <= c * r <= c * b
  {
  }

  /** thread_calculate_priority; moving the thread in its list is the scheduler's. */
  function Reprioritised(s: Stats, ghost n: nat): (r: Stats)
    requires n <= MAX_THREADS && Within(s, n, TIMER_FREQ)
    ensures r == s.(priority := r.priority) && PRI_MIN <= r.priority <= PRI_MAX && UpToDate(r)
    ensures r.priority == Exact(s.recentCpu, s.nice) + if RoundsUp(s.recentCpu, s.nice) then 1 else 0
  {
    hide Exact, RoundsUp, Trunc;
    FormulaRoundsTwice(s.recentCpu, s.nice);
    DivInt(s.recentCpu, 4);
    TruncBound(s.recentCpu, 4, Bound(n, TIMER_FREQ) / 4);
    var quarter := Div(s.recentCpu, FromInt(4));
    var p := TowardZero(Sub(Sub(FromInt(PRI_MAX), quarter), FromInt(s.nice * 2)));
    s.(priority := Clamped(p))
  }

  /** A thread's priority is current, is about to be recomputed, or is still the one a new
      thread gets. */
  predicate Tracked(s: Stats) {
    UpToDate(s) || s.recentlyUp || s == NEW
  }

  predicate Sound(ts: seq<Stats>, n: nat, t: nat) {
    forall i :: 0 <= i < |ts| ==> Within(ts[i], n, t) && Tracked(ts[i])
  }

  /** One more tick for the running thread. */
  function Charged(s: Stats, ghost n: nat, ghost t: nat): (r: Stats)
    requires n <= MAX_THREADS && t < TIMER_FREQ && Within(s, n, t)
    ensures Within(r, n, t + 1) && Tracked(r) && r == s.(recentCpu := s.recentCpu + ONE, recentlyUp := true)
  {
    BoundFits(n, t + 1);
    s.(recentCpu := Add(s.recentCpu, FromInt(1)), recentlyUp := true)
  }

  /** thread_update_priorities */
  function Updated(s: Stats, ghost n: nat): (r: Stats)
    requires n <= MAX_THREADS && Within(s, n, TIMER_FREQ) && Tracked(s)
    ensures !r.recentlyUp && (UpToDate(r) || r == NEW)
    ensures r == s.(priority := r.priority, recentlyUp := false)
    ensures r.priority == if s.recentlyUp then Formula(s.recentCpu, s.nice) else s.priority
  {
    if !s.recentlyUp then s else Reprioritised(s.(recentlyUp := false), n)
  }

  /** A tick takes A to B: a unit for the thread that RUNS; at the end of a second the decay and
      nice; at the end of a time slice the new priority, if anything has changed since it was
      last computed. */
  predicate TicksTo(a: Stats, b: Stats, runs: bool, coefficient: Option<Fp>, slice: bool) {
    var cpu := a.recentCpu + if runs then ONE else 0;
    var marked := a.recentlyUp || runs || coefficient.Some?;
    && b.nice == a.nice
    && b.recentCpu == (match coefficient case None => cpu case Some(c) => Trunc(c * cpu, ONE) + a.nice * ONE)
    && b.recentlyUp == (marked && !slice)
    && b.priority == if marked && slice then Formula(b.recentCpu, a.nice) else a.priority
  }

  /** What a tick does to one thread: RUNS if it was running, with a coefficient at the end
      of a second, and SLICE at the end of a time slice. */
  function Ticked(s: Stats, runs: bool, coefficient: Option<Fp>, slice: bool, ghost n: nat, ghost t: nat): (r: Stats)
    requires n <= MAX_THREADS && t < TIMER_FREQ && Within(s, n, t) && Tracked(s)
    requires coefficient.Some? ==> t + 1 == TIMER_FREQ && CoefficientOk(coefficient.value, n)
    ensures Within(r, n, if coefficient.Some? then 0 else t + 1) && Tracked(r)
    ensures TicksTo(s, r, runs, coefficient, slice)
    ensures slice ==> UpToDate(r) || (r == NEW && coefficient.None?)
  {
    var a := if runs then Charged(s, n, t) else s;
    var b := if coefficient.Some? then Decayed(a, coefficient.value, n) else a;
    if slice then Updated(b, n) else b
  }

  /** The idle thread's place in the list of all threads. */
  const IDLE: nat := 0

  function AllTicked(ts: seq<Stats>, current: nat, coefficient: Option<Fp>, slice: bool, ghost n: nat, ghost t: nat)
    : (r: seq<Stats>)
    requires n <= MAX_THREADS && t < TIMER_FREQ && Sound(ts, n, t)
    requires coefficient.Some? ==> t + 1 == TIMER_FREQ && CoefficientOk(coefficient.value, n)
    ensures |r| == |ts| && Sound(r, n, if coefficient.Some? then 0 else t + 1)
    ensures forall i :: 0 <= i < |ts| ==> r[i] == Ticked(ts[i], i == current != IDLE, coefficient, slice, n, t)
    ensures forall i :: 0 <= i < |ts| ==> TicksTo(ts[i], r[i], i == current != IDLE, coefficient, slice)
    ensures slice ==> forall i :: 0 <= i < |r| ==> UpToDate(r[i]) || (r[i] == NEW && coefficient.None?)
  {
    seq(|ts|, i requires 0 <= i < |ts| => Ticked(ts[i], i == current != IDLE, coefficient, slice, n, t))
  }

  datatype Snapshot = Snapshot(ticks: nat, loadAvg: Fp, coefficient: Fp, threads: seq<Stats>)

  /** The load average is between 0 and N, the coefficient below one, and every recent_cpu
      within its bound. */
  predicate Ok(s: Snapshot, n: nat) {
    && 1 <= |s.threads| <= n <= MAX_THREADS
    && 0 <= s.loadAvg <= n * ONE
    && CoefficientOk(s.coefficient, n) && s.coefficient < ONE
    && Sound(s.threads, n, s.ticks % TIMER_FREQ)
  }

  predicate Possible(s: Snapshot, current: nat, ready: nat) {
    current < |s.threads| && ready + (if current == IDLE then 0 else 1) <= |s.threads|
  }

  lemma NextTick(t: nat)
    ensures (t + 1) % TIMER_FREQ == if t % TIMER_FREQ == TIMER_FREQ - 1 then 0 else t % TIMER_FREQ + 1
  {
  }

  /** The state after thread_tick. */
  function After(s: Snapshot, current: nat, ready: nat, ghost n: nat): (r: Snapshot)
    requires Ok(s, n) && Possible(s, current, ready)
    ensures Ok(r, n) && r.ticks == s.ticks + 1 && |r.threads| == |s.threads|
    ensures r.ticks % TIMER_FREQ == 0 ==>
      Averages(s.loadAvg, if current == IDLE then ready else ready + 1, r.loadAvg) && Decays(r.loadAvg, r.coefficient)
    ensures r.ticks % TIMER_FREQ != 0 ==> r.loadAvg == s.loadAvg && r.coefficient == s.coefficient
    ensures forall i :: 0 <= i < |s.threads| ==>
      TicksTo(s.threads[i], r.threads[i], i == current != IDLE,
              if r.ticks % TIMER_FREQ == 0 then Some(r.coefficient) else None, r.ticks % TIME_SLICE == 0)
  {
    hide LoadAvg, Coefficient, AllTicked, Sound, CoefficientOk, Ticked, UpToDate, TicksTo, Averages, Decays;
    NextTick(s.ticks);
    var ticks := s.ticks + 1;
    if ticks % TIMER_FREQ == 0 then
      var l := LoadAvg(s.loadAvg, if current == IDLE then ready else ready + 1, n);
      var c := Coefficient(l, n);
      Snapshot(ticks, l, c, AllTicked(s.threads, current, Some(c), ticks % TIME_SLICE == 0, n, TIMER_FREQ - 1))
    else
      Snapshot(ticks, s.loadAvg, s.coefficient,
               AllTicked(s.threads, current, None, ticks % TIME_SLICE == 0, n, s.ticks % TIMER_FREQ))
  }

  /** At the end of a time slice a thread's priority is the formula's, if and only if it is
      not one untouched since it was made that neither ran in this tick nor reached the end
      of a second. */
  lemma PrioritiesCurrent(s: Snapshot, current: nat, ready: nat, n: nat, i: nat)
    requires Ok(s, n) && Possible(s, current, ready) && i < |s.threads| && (s.ticks + 1) % TIME_SLICE == 0
    ensures UpToDate(After(s, current, ready, n).threads[i]) <==>
      !(s.threads[i] == NEW && !(i == current != IDLE) && (s.ticks + 1) % TIMER_FREQ != 0)
  {
    hide LoadAvg, Coefficient, Ticked, AllTicked, UpToDate, CoefficientOk, Bound;
    NextTick(s.ticks);
    var t := s.ticks % TIMER_FREQ;
    var runs := i == current != IDLE;
    if (s.ticks + 1) % TIMER_FREQ == 0 {
      var l := LoadAvg(s.loadAvg, if current == IDLE then ready else ready + 1, n);
      TickedCurrent(s.threads[i], runs, Some(Coefficient(l, n)), n, t);
    } else {
      TickedCurrent(s.threads[i], runs, None, n, t);
    }
  }

  lemma TickedCurrent(s: Stats, runs: bool, coefficient: Option<Fp>, n: nat, t: nat)
    requires n <= MAX_THREADS && t < TIMER_FREQ && Within(s, n, t) && Tracked(s)
    requires coefficient.Some? ==> t + 1 == TIMER_FREQ && CoefficientOk(coefficient.value, n)
    ensures UpToDate(Ticked(s, runs, coefficient, true, n, t)) <==> !(s == NEW && !runs && coefficient.None?)
  {
    hide UpToDate, CoefficientOk, Bound;
    NewThreadStale();
  }

  /** The exception is real: a new thread's priority is not the formula's. */
  lemma NewThreadStale()
    ensures !UpToDate(NEW)
  {
    assert Formula(0, 0) == PRI_MAX;
  }

  /** The three passes over the threads amount to one. */
  lemma Assembled(ts: seq<Stats>, charged: seq<Stats>, decayed: seq<Stats>, updated: seq<Stats>, current: nat,
                  coefficient: Option<Fp>, slice: bool, n: nat, t: nat)
    requires n <= MAX_THREADS && t < TIMER_FREQ && Sound(ts, n, t)
    requires coefficient.Some? ==> t + 1 == TIMER_FREQ && CoefficientOk(coefficient.value, n)
    requires |ts| == |charged| == |decayed| == |updated|
    requires forall i :: 0 <= i < |ts| ==>
      charged[i] == if i == current != IDLE then Charged(ts[i], n, t) else ts[i]
    requires Sound(charged, n, t + 1)
    requires forall i :: 0 <= i < |ts| ==>
      decayed[i] == if coefficient.Some? then Decayed(charged[i], coefficient.value, n) else charged[i]
    requires Sound(decayed, n, TIMER_FREQ)
    requires forall i :: 0 <= i < |ts| ==> updated[i] == if slice then Updated(decayed[i], n) else decayed[i]
    ensures updated == AllTicked(ts, current, coefficient, slice, n, t)
  {
    hide Decayed, Updated, Charged, CoefficientOk, Within, Tracked;
  }

  class Mlfqs {
    /** The most threads there may be at once, the idle one included. */
    const limit: nat
    var ticks: nat
    var loadAvg: Fp
    var coefficient: Fp
    var threads: seq<Stats>

    ghost function Contents(): Snapshot
      reads this
    {
      Snapshot(ticks, loadAvg, coefficient, threads)
    }

    ghost predicate Valid()
      reads this
    {
      Ok(Contents(), limit)
    }

    constructor (limit: nat)
      requires 1 <= limit <= MAX_THREADS
      ensures Valid() && this.limit == limit && ticks == 0 && threads == [NEW]
    {
      this.limit := limit;
      ticks, loadAvg, coefficient, threads := 0, 0, 0, [NEW];
    }

    /** thread_foreach of thread_calculate_recent_cpu */
    method DecayAll()
      requires limit <= MAX_THREADS && CoefficientOk(coefficient, limit) && Sound(threads, limit, TIMER_FREQ)
      modifies this`threads
      ensures Sound(threads, limit, 0) && |threads| == |old(threads)|
      ensures forall i :: 0 <= i < |threads| ==> threads[i] == Decayed(old(threads[i]), coefficient, limit)
    {
      var i := 0;
      while i < |threads|
        invariant 0 <= i <= |threads| == |old(threads)|
        invariant forall j :: 0 <= j < i ==> threads[j] == Decayed(old(threads[j]), coefficient, limit)
        invariant forall j :: i <= j < |threads| ==> threads[j] == old(threads[j])
      {
        threads := threads[i := Decayed(threads[i], coefficient, limit)];
        i := i + 1;
      }
    }

    /** thread_foreach of thread_update_priorities */
    method UpdateAll()
      requires limit <= MAX_THREADS && Sound(threads, limit, TIMER_FREQ)
      modifies this`threads
      ensures |threads| == |old(threads)|
      ensures forall i :: 0 <= i < |threads| ==> threads[i] == Updated(old(threads[i]), limit)
    {
      var i := 0;
      while i < |threads|
        invariant 0 <= i <= |threads| == |old(threads)|
        invariant forall j :: 0 <= j < i ==> threads[j] == Updated(old(threads[j]), limit)
        invariant forall j :: i <= j < |threads| ==> threads[j] == old(threads[j])
      {
        threads := threads[i := Updated(threads[i], limit)];
        i := i + 1;
      }
    }

    /** thread_tick, with CURRENT running and READY threads on the ready list. */
    method Tick(current: nat, ready: nat)
      requires Valid() && Possible(Contents(), current, ready)
      modifies this
      ensures Contents() == After(old(Contents()), current, ready, limit) && Valid()
    {
      hide LoadAvg, Coefficient, Decayed, Updated, Charged, Ticked, AllTicked, CoefficientOk, Within, Tracked;
      ghost var t, ts := ticks % TIMER_FREQ, threads;
      NextTick(ticks);
      ticks := ticks + 1;
      if current != IDLE {
        threads := threads[current := Charged(threads[current], limit, t)];
      }
      Widen(ts, limit, t, t + 1);
      ghost var charged := threads;
      if ticks % TIMER_FREQ == 0 {
        loadAvg := LoadAvg(loadAvg, if current == IDLE then ready else ready + 1, limit);
        coefficient := Coefficient(loadAvg, limit);
        DecayAll();
      }
      ghost var decayed := threads;
      Widen(decayed, limit, ticks % TIMER_FREQ, TIMER_FREQ);
      if ticks % TIME_SLICE == 0 {
        UpdateAll();
      }
      ghost var c := if ticks % TIMER_FREQ == 0 then Some(coefficient) else None;
      Assembled(ts, charged, decayed, threads, current, c, ticks % TIME_SLICE == 0, limit, t);
    }

    /** thread_set_nice of the thread at index I */
    method SetNice(i: nat, nice: int)
      requires Valid() && i < |threads| && -NICE_MAX <= nice <= NICE_MAX
      modifies this`threads
      ensures Valid() && |threads| == |old(threads)| && threads == old(threads)[i := threads[i]]
      ensures threads[i].nice == nice && UpToDate(threads[i])
      ensures threads[i].recentCpu == old(threads[i].recentCpu)
    {
      threads := threads[i := Reprioritised(threads[i].(nice := nice), limit)];
    }

    /** thread_create */
    method Create()
      requires Valid() && |threads| < limit
      modifies this`threads
      ensures Valid() && threads == old(threads) + [NEW]
    {
      threads := threads + [NEW];
    }

    /** thread_exit */
    method Exit(i: nat)
      requires Valid() && IDLE < i < |threads|
      modifies this`threads
      ensures Valid() && threads == RemoveAt(old(threads), i)
    {
      threads := RemoveAt(threads, i);
    }

    /** thread_get_recent_cpu: 100 times the value, to the nearest integer, without overflow. */
    method GetRecentCpu(i: nat) returns (r: int)
      requires Valid() && i < |threads|
      ensures Fits(r) && -(50 * ONE) <= 100 * threads[i].recentCpu - r * ONE <= 50 * ONE
    {
      hide Trunc, CoefficientOk;
      BoundFits(limit, ticks % TIMER_FREQ);
      NearestIsNear(threads[i].recentCpu);
      r := 100 * ToNearest(threads[i].recentCpu);
    }

    /** thread_get_load_avg */
    method GetLoadAvg() returns (r: int)
      requires Valid()
      ensures 0 <= r <= 100 * limit && -(50 * ONE) <= 100 * loadAvg - r * ONE <= 50 * ONE
    {
      hide Sound, CoefficientOk;
      NearestIsNear(loadAvg);
      r := 100 * ToNearest(loadAvg);
    }
  }

  lemma Widen(ts: seq<Stats>, n: nat, t: nat, u: nat)
    requires Sound(ts, n, t) && t <= u
    ensures Sound(ts, n, u)
  {
  }
}
