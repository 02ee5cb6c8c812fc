/**
 The workload of bin/rtspin.c: `loop_for` spins until a CPU-time budget is used up,
 and `job` spends a budget around a critical section.

 `clock` is the sequence of values that successive calls of `cputime` return, `wall`
 the same for `wctime`; doubles are reals.  `loop_for` takes its first reading at
 position `k`.
 */
module Spin {

  // ----- loop_for -----

  /** What the `i`-th pass costs, as the loop measures it; 0 before the first pass. */
  function Cost(clock: nat -> real, k: nat, i: nat): real {
    if i == 0 then 0.0 else clock(k + 1 + i) - clock(k + i)
  }

  /** CPU time between the first reading and the one after pass `m`. */
  function Elapsed(clock: nat -> real, k: nat, m: nat): real {
    clock(k + 1 + m) - clock(k)
  }

  /** The loop's guard after `i` passes. */
  predicate Continues(clock: nat -> real, k: nat, exec: real, i: nat) {
    clock(k + 1 + i) + Cost(clock, k, i) < clock(k) + exec
  }

  /** The loop gets as far as `m` passes. */
  ghost predicate Passes(clock: nat -> real, k: nat, exec: real, m: nat) {
    forall i: nat :: i < m ==> Continues(clock, k, exec, i)
  }

  /** The `m`-th pass ends in the emergency exit; an emergency time of 0 means that there is none. */
  predicate EmergencyAt(wall: nat -> real, w: nat, emergency: real, m: nat) {
    emergency != 0.0 && m > 0 && wall(w + m - 1) > emergency
  }

  /**
   On the readings: a first pass is made if and only if the two first readings are less
   than the request apart, another one while the time and the last cost stay within it.
   */
  ghost predicate GuardOnReadings(clock: nat -> real, k: nat, exec: real, m: nat, stopped: bool) {
    && (m > 0 <==> clock(k + 1) < clock(k) + exec)
    && (forall p :: k + 2 <= p < k + 1 + m ==> clock(p) + (clock(p) - clock(p - 1)) < clock(k) + exec)
    && (m > 0 && !stopped ==> clock(k + 1 + m) + (clock(k + 1 + m) - clock(k + m)) >= clock(k) + exec)
  }

  /** On the readings of the wall clock: one after each pass, and only the last is past the emergency time, if any. */
  ghost predicate ExitOnReadings(wall: nat -> real, w: nat, emergency: real, m: nat, stopped: bool) {
    && (stopped <==> emergency != 0.0 && m > 0 && wall(w + m - 1) > emergency)
    && (emergency != 0.0 ==> forall p :: w <= p < w + m - 1 ==> wall(p) <= emergency)
  }

  lemma PassesOnReadings(clock: nat -> real, k: nat, exec: real, m: nat, stopped: bool)
    requires Passes(clock, k, exec, m) && (!stopped ==> !Continues(clock, k, exec, m)) && (stopped ==> m > 0)
    ensures GuardOnReadings(clock, k, exec, m, stopped)
  {
    if m > 0 {
      assert Continues(clock, k, exec, 0);
    }
    forall p | k + 2 <= p < k + 1 + m ensures clock(p) + (clock(p) - clock(p - 1)) < clock(k) + exec {
      assert Continues(clock, k, exec, p - k - 1);
    }
  }

  lemma EmergencyOnReadings(wall: nat -> real, w: nat, emergency: real, m: nat, stopped: bool)
    requires stopped == EmergencyAt(wall, w, emergency, m)
    requires forall i :: 0 <= i < m ==> !EmergencyAt(wall, w, emergency, i)
    ensures ExitOnReadings(wall, w, emergency, m, stopped)
  {
    if emergency != 0.0 {
      forall p | w <= p < w + m - 1 ensures wall(p) <= emergency {
        assert !EmergencyAt(wall, w, emergency, p - w + 1);
      }
    }
  }

  /**
   `loop_for`.  It ends if and only if, after some number of passes, the guard fails
   or the emergency exit is taken; `bound` is such a number.
   */
  method LoopFor(clock: nat -> real, k: nat, wall: nat -> real, w: nat, exec: real, emergency: real, ghost bound: nat)
    returns (m: nat, wEnd: nat, stopped: bool)
    requires !Continues(clock, k, exec, bound) || EmergencyAt(wall, w, emergency, bound)
    ensures Passes(clock, k, exec, m)
    ensures !stopped ==> !Continues(clock, k, exec, m)
    ensures stopped == EmergencyAt(wall, w, emergency, m)
    ensures forall i :: 0 <= i < m ==> !EmergencyAt(wall, w, emergency, i)
    ensures wEnd == if emergency == 0.0 then w else w + m
    ensures GuardOnReadings(clock, k, exec, m, stopped)
    ensures ExitOnReadings(wall, w, emergency, m, stopped)
  {
    var start := clock(k);
    var now := clock(k + 1);
    var lastLoop := 0.0;
    m, wEnd, stopped := 0, w, false;
    while now + lastLoop < start + exec
      invariant start == clock(k) && now == clock(k + 1 + m) && lastLoop == Cost(clock, k, m)
      invariant Passes(clock, k, exec, m) && m <= bound
      invariant wEnd == if emergency == 0.0 then w else w + m
      invariant !stopped && forall i :: 0 <= i <= m ==> !EmergencyAt(wall, w, emergency, i)
      decreases bound - m
    {
      var loopStart := now;
      m := m + 1;
      now := clock(k + 1 + m);
      lastLoop := now - loopStart;
      if emergency != 0.0 {
        wEnd := wEnd + 1;
        if wall(wEnd - 1) > emergency {
          stopped := true;
          break;
        }
      }
    }
    PassesOnReadings(clock, k, exec, m, stopped);
    EmergencyOnReadings(wall, w, emergency, m, stopped);
  }

  /** The spin bound: after a normal exit the time is within the last measured costs of the request. */
  lemma SpinBound(clock: nat -> real, k: nat, exec: real, m: nat)
    requires Passes(clock, k, exec, m) && !Continues(clock, k, exec, m)
    ensures Elapsed(clock, k, m) >= exec - Cost(clock, k, m)
    ensures m >= 1 ==> Elapsed(clock, k, m) < exec + Cost(clock, k, m) - Cost(clock, k, m - 1)
  {
    if m >= 1 {
      assert Continues(clock, k, exec, m - 1);
    }
  }

  /** Every pass up to `m` costs at least `lo`. */
  ghost predicate CostsAtLeast(clock: nat -> real, k: nat, m: nat, lo: real) {
    clock(k) <= clock(k + 1) && forall i: nat :: 1 <= i <= m ==> Cost(clock, k, i) >= lo
  }

  lemma {:induction false} TimeGrows(clock: nat -> real, k: nat, m: nat, lo: real)
    requires CostsAtLeast(clock, k, m, lo)
    ensures Elapsed(clock, k, m) >= m as real * lo
    decreases m
  {
    if m > 0 {
      TimeGrows(clock, k, m - 1, lo);
      assert Cost(clock, k, m) >= lo;
      assert m as real * lo == (m - 1) as real * lo + lo;
    }
  }

  /** The number of passes is bounded by the request: all but the last fit into it. */
  lemma PassesBound(clock: nat -> real, k: nat, exec: real, m: nat, lo: real)
    requires Passes(clock, k, exec, m) && CostsAtLeast(clock, k, m, lo)
    ensures m <= 1 || m as real * lo < exec
  {
    if m > 1 {
      assert Continues(clock, k, exec, m - 1);
      TimeGrows(clock, k, m - 1, lo);
      assert Cost(clock, k, m - 1) >= lo;
      assert m as real * lo == (m - 1) as real * lo + lo;
    }
  }

  /** A number of passes after which a loop that makes progress has ended. */
  function PassesNeeded(exec: real, lo: real): nat
    requires lo > 0.0
  {
    var passes := (exec / lo).Floor + 1;
    if passes < 0 then 0 else passes
  }

  /** If every pass costs at least `lo > 0` the loop ends. */
  lemma ProgressEndsLoop(clock: nat -> real, k: nat, exec: real, lo: real)
    requires lo > 0.0
    requires clock(k) <= clock(k + 1) && forall i: nat :: i >= 1 ==> Cost(clock, k, i) >= lo
    ensures !Continues(clock, k, exec, PassesNeeded(exec, lo))
  {
    var bound := PassesNeeded(exec, lo);
    TimeGrows(clock, k, bound, lo);
    assert bound as real >= exec / lo;
    assert bound as real * lo >= exec / lo * lo == exec;
  }

  /** On a clock that advances by at least `lo` from reading to reading. */
  ghost predicate Advances(clock: nat -> real, lo: real) {
    lo > 0.0 && forall i: nat, j: nat :: j == i + 1 ==> clock(j) - clock(i) >= lo
  }

  // ----- job -----

  /** The events of a job; a spin records its request, its first readings of both clocks, and how it ended. */
  datatype Event =
    | Spun(requested: real, at: nat, wallAt: nat, passes: nat, emergency: real, stopped: bool)
    | Lock
    | Unlock
    | Sleep
  {
    /** The first readings of the CPU clock and of the wall clock that are left to later calls. */
    function NextAt(): nat
      requires Spun?
    {
      at + 2 + passes
    }

    function NextWallAt(): nat
      requires Spun?
    {
      if emergency == 0.0 then wallAt else wallAt + passes
    }
  }

  /** A `loop_for` call that ends as the clocks make it end. */
  ghost predicate SpunBy(clock: nat -> real, wall: nat -> real, e: Event) {
    && e.Spun?
    && Passes(clock, e.at, e.requested, e.passes)
    && (!e.stopped ==> !Continues(clock, e.at, e.requested, e.passes))
    && e.stopped == EmergencyAt(wall, e.wallAt, e.emergency, e.passes)
  }

  /** A call with this request and emergency time that takes its readings from these positions on. */
  ghost predicate Calls(clock: nat -> real, wall: nat -> real, e: Event, exec: real, emergency: real, k: nat, w: nat) {
    SpunBy(clock, wall, e) && e.requested == exec && e.emergency == emergency && e.at == k && e.wallAt == w
  }

  function Portion(r: real, d: real): real {
    r * d
  }

  /** The numbers that a job is called with; `random` is what `drand48` returns. */
  datatype JobCall = JobCall(exec: real, programEnd: real, lockOd: int, cs: real, random: real)
  {
    function Chunk1(): real {
      Portion(random, exec - cs)
    }

    function Chunk2(): real {
      exec - cs - Chunk1()
    }
  }

  /** The events of one job that is not past the end of the program; the calls read the clocks one after the other. */
  ghost predicate JobEvents(log: seq<Event>, clock: nat -> real, wall: nat -> real, j: JobCall, k: nat, w: nat) {
    if j.lockOd >= 0 then
      && |log| == 6
      && Calls(clock, wall, log[0], j.Chunk1(), j.programEnd + 1.0, k, w)
      && log[1] == Lock
      && Calls(clock, wall, log[2], j.cs, j.programEnd + 1.0, log[0].NextAt(), log[0].NextWallAt())
      && log[3] == Unlock
      && Calls(clock, wall, log[4], j.Chunk2(), j.programEnd + 2.0, log[2].NextAt(), log[2].NextWallAt())
      && log[5] == Sleep
    else
      && |log| == 2
      && Calls(clock, wall, log[0], j.exec, j.programEnd + 1.0, k, w)
      && log[1] == Sleep
  }

  /** One call of `job` from these clock positions to those; the wall clock is read once before anything else. */
  ghost predicate JobStep(log: seq<Event>, clock: nat -> real, wall: nat -> real, j: JobCall,
                          k: nat, w: nat, kEnd: nat, wEnd: nat)
  {
    if wall(w) > j.programEnd then
      log == [] && kEnd == k && wEnd == w + 1
    else
      && JobEvents(log, clock, wall, j, k, w + 1)
      && kEnd == log[|log| - 2].NextAt() && wEnd == log[|log| - 2].NextWallAt()
  }

  /** `bound` witnesses that every `loop_for` on these clocks ends. */
  ghost predicate Ends(clock: nat -> real, wall: nat -> real, bound: (nat, nat, real, real) -> nat) {
    forall k: nat, w: nat, exec: real, emergency: real {:trigger bound(k, w, exec, emergency)} ::
      var m := bound(k, w, exec, emergency);
      !Continues(clock, k, exec, m) || EmergencyAt(wall, w, emergency, m)
  }

  /** Such a clock ends every `loop_for`, whatever the wall clock does. */
  lemma AdvancingClockEnds(clock: nat -> real, wall: nat -> real, lo: real)
    returns (bound: (nat, nat, real, real) -> nat)
    requires Advances(clock, lo)
    ensures Ends(clock, wall, bound)
  {
    bound := (k: nat, w: nat, exec: real, emergency: real) => PassesNeeded(exec, lo);
    forall k: nat, w: nat, exec: real, emergency: real
      ensures !Continues(clock, k, exec, bound(k, w, exec, emergency))
    {
      ProgressEndsLoop(clock, k, exec, lo);
    }
  }

  /** One call of `loop_for` with its record. */
  method SpinOnce(clock: nat -> real, k: nat, wall: nat -> real, w: nat, exec: real, emergency: real,
                  ghost bound: (nat, nat, real, real) -> nat) returns (e: Event)
    requires Ends(clock, wall, bound)
    ensures e.Spun? && Calls(clock, wall, e, exec, emergency, k, w)
  {
    var m, wEnd, stopped := LoopFor(clock, k, wall, w, exec, emergency, bound(k, w, exec, emergency));
    e := Spun(exec, k, w, m, emergency, stopped);
  }

  /**
   The requests of a job with a lock: a random share of what the critical section
   leaves of the budget, the critical section, and the rest.
   */
  predicate SplitsBudget(log: seq<Event>, j: JobCall) {
    && |log| == 6 && log[0].Spun? && log[1] == Lock && log[2].Spun? && log[3] == Unlock && log[4].Spun? && log[5] == Sleep
    && log[0].requested == j.random * (j.exec - j.cs)
    && log[2].requested == j.cs
    && log[4].requested == (1.0 - j.random) * (j.exec - j.cs)
    && log[0].emergency == log[2].emergency == j.programEnd + 1.0
    && log[4].emergency == j.programEnd + 2.0
  }

  /** The spin `after` takes up both clocks where `before` has left them. */
  predicate TakesOver(before: Event, after: Event) {
    && before.Spun? && after.Spun?
    && after.at == before.at + 2 + before.passes
    && after.wallAt == before.wallAt + if before.emergency == 0.0 then 0 else before.passes
  }

  lemma SharesOfBudget(j: JobCall)
    ensures j.Chunk1() == j.random * (j.exec - j.cs)
    ensures j.Chunk2() == (1.0 - j.random) * (j.exec - j.cs)
    ensures j.Chunk1() * (1.0 - j.random) == j.Chunk2() * j.random
  {
    var r, d := j.random, j.exec - j.cs;
    assert (1.0 - r) * d == d - r * d;
    assert r * d * (1.0 - r) == (1.0 - r) * d * r;
  }

  method Job(j: JobCall, clock: nat -> real, k: nat, wall: nat -> real, w: nat,
             ghost bound: (nat, nat, real, real) -> nat)
    returns (ret: int, log: seq<Event>, kEnd: nat, wEnd: nat)
    requires Ends(clock, wall, bound)
    ensures ret == if wall(w) > j.programEnd then 0 else 1
    ensures JobStep(log, clock, wall, j, k, w, kEnd, wEnd)
    ensures wall(w) > j.programEnd ==> log == [] && kEnd == k && wEnd == w + 1
    ensures wall(w) <= j.programEnd ==>
              && |log| >= 2 && log[0].Spun? && log[0].at == k && log[0].wallAt == w + 1
              && var last := log[|log| - 2];
                 last.Spun? && kEnd == last.at + 2 + last.passes
                 && wEnd == last.wallAt + if last.emergency == 0.0 then 0 else last.passes
    ensures wall(w) <= j.programEnd && j.lockOd >= 0 ==>
              SplitsBudget(log, j) && TakesOver(log[0], log[2]) && TakesOver(log[2], log[4])
    ensures wall(w) <= j.programEnd && j.lockOd < 0 ==>
              |log| == 2 && log[0].requested == j.exec && log[0].emergency == j.programEnd + 1.0 && log[1] == Sleep
  {
    SharesOfBudget(j);
    hide SpunBy;
    kEnd, wEnd := k, w + 1;
    if wall(w) > j.programEnd {
      return 0, [], kEnd, wEnd;
    }
    if j.lockOd >= 0 {
      var chunk1 := Portion(j.random, j.exec - j.cs);
      var chunk2 := j.exec - j.cs - chunk1;
      var e1 := SpinOnce(clock, k, wall, w + 1, chunk1, j.programEnd + 1.0, bound);
      log := [e1, Lock];
      var e2 := SpinOnce(clock, e1.NextAt(), wall, e1.NextWallAt(), j.cs, j.programEnd + 1.0, bound);
      log := log + [e2, Unlock];
      var e3 := SpinOnce(clock, e2.NextAt(), wall, e2.NextWallAt(), chunk2, j.programEnd + 2.0, bound);
      log := log + [e3];
      kEnd, wEnd := e3.NextAt(), e3.NextWallAt();
    } else {
      var e := SpinOnce(clock, k, wall, w + 1, j.exec, j.programEnd + 1.0, bound);
      log := [e];
      kEnd, wEnd := e.NextAt(), e.NextWallAt();
    }
    log := log + [Sleep];
    ret := 1;
  }

  // ----- The budget -----

  lemma NegativeProduct(x: real, y: real)
    requires x > 0.0 && y < 0.0
    ensures x * y < 0.0
  {
  }

  lemma PortionIsBetween(r: real, d: real)
    requires 0.0 <= r < 1.0
    ensures d >= 0.0 ==> 0.0 <= Portion(r, d) <= d
    ensures d < 0.0 ==> d < Portion(r, d) <= 0.0
  {
    assert d - r * d == (1.0 - r) * d;
    if d < 0.0 {
      NegativeProduct(1.0 - r, d);
    }
  }

  /** The three requests always add up to the budget; none is negative if and only if the critical section fits. */
  lemma ChunksMakeTheBudget(j: JobCall)
    requires 0.0 <= j.random < 1.0
    ensures j.Chunk1() + j.cs + j.Chunk2() == j.exec
    ensures j.Chunk1() >= 0.0 && j.Chunk2() >= 0.0 <==> j.cs <= j.exec
    ensures j.cs > j.exec ==> j.Chunk1() <= 0.0 && j.Chunk2() <= 0.0
  {
    hide Portion;
    PortionIsBetween(j.random, j.exec - j.cs);
  }

  function Max(x: real, y: real): real {
    if x >= y then x else y
  }

  /** CPU time inside the `loop_for` calls of a log. */
  function SpunTime(clock: nat -> real, log: seq<Event>): real {
    if log == [] then 0.0
    else (if log[0].Spun? then Elapsed(clock, log[0].at, log[0].passes) else 0.0) + SpunTime(clock, log[1..])
  }

  /** Within a call, no pass and no pair of initial readings takes longer than `hi`, and time does not run backwards. */
  ghost predicate Smooth(clock: nat -> real, e: Event, hi: real)
    requires e.Spun?
  {
    && 0.0 <= clock(e.at + 1) - clock(e.at) <= hi
    && forall i: nat :: 1 <= i <= e.passes ==> 0.0 <= Cost(clock, e.at, i) <= hi
  }

  /** All calls of a log run on a smooth clock. */
  ghost predicate AllSmooth(clock: nat -> real, log: seq<Event>, hi: real) {
    forall i :: 0 <= i < |log| && log[i].Spun? ==> Smooth(clock, log[i], hi)
  }

  /** No call of a log takes the emergency exit. */
  predicate NoneStopped(log: seq<Event>) {
    forall i :: 0 <= i < |log| && log[i].Spun? ==> !log[i].stopped
  }

  lemma NoTimeIsNegative(clock: nat -> real, e: Event, hi: real)
    requires e.Spun? && Smooth(clock, e, hi)
    ensures Elapsed(clock, e.at, e.passes) >= 0.0
  {
    TimeGrows(clock, e.at, e.passes, 0.0);
  }

  lemma LockedJobTime(clock: nat -> real, log: seq<Event>)
    requires |log| == 6 && log[0].Spun? && log[1] == Lock && log[2].Spun? && log[3] == Unlock && log[4].Spun?
             && log[5] == Sleep
    ensures SpunTime(clock, log) == Elapsed(clock, log[0].at, log[0].passes)
                                  + Elapsed(clock, log[2].at, log[2].passes)
                                  + Elapsed(clock, log[4].at, log[4].passes)
  {
    assert log[1..][1..] == log[2..];
    assert log[2..][1..] == log[3..];
    assert log[3..][1..] == log[4..];
    assert log[4..][1..] == log[5..];
    assert log[5..][1..] == [];
    assert SpunTime(clock, log[5..]) == 0.0;
    assert SpunTime(clock, log[3..]) == SpunTime(clock, log[4..]);
    assert SpunTime(clock, log[1..]) == SpunTime(clock, log[2..]);
  }

  /**
   Every call takes its request, up to one pass, and after an emergency exit at most
   that; a request that is not positive takes no pass at all.
   */
  lemma CallBound(clock: nat -> real, wall: nat -> real, e: Event, hi: real)
    requires SpunBy(clock, wall, e) && Smooth(clock, e, hi)
    ensures 0.0 <= Elapsed(clock, e.at, e.passes) <= Max(e.requested, 0.0) + hi
    ensures !e.stopped ==> Elapsed(clock, e.at, e.passes) >= Max(e.requested, 0.0) - hi
    ensures e.requested <= 0.0 ==> e.passes == 0
  {
    NoTimeIsNegative(clock, e, hi);
    if !e.stopped {
      SpinBound(clock, e.at, e.requested, e.passes);
    }
    assert e.passes >= 1 ==> 0.0 <= Cost(clock, e.at, e.passes) <= hi;
    if e.passes >= 1 {
      assert Continues(clock, e.at, e.requested, 0);
      assert Continues(clock, e.at, e.requested, e.passes - 1);
      assert 0.0 <= Cost(clock, e.at, e.passes - 1);
    }
  }

  /**
   The CPU time of every job, up to one pass for each `loop_for` call: with a lock the
   larger of the budget and the critical section, without one the budget.  After an
   emergency exit the upper bound still holds.
   */
  lemma JobTimeBound(log: seq<Event>, clock: nat -> real, wall: nat -> real, j: JobCall, k: nat, w: nat, hi: real)
    requires JobEvents(log, clock, wall, j, k, w) && AllSmooth(clock, log, hi)
    requires j.lockOd >= 0 ==> 0.0 <= j.random < 1.0 && j.cs >= 0.0
    ensures j.lockOd >= 0 ==> SpunTime(clock, log) <= Max(j.exec, j.cs) + 3.0 * hi
    ensures j.lockOd >= 0 && NoneStopped(log) ==> SpunTime(clock, log) >= Max(j.exec, j.cs) - 3.0 * hi
    ensures j.lockOd < 0 ==> SpunTime(clock, log) <= Max(j.exec, 0.0) + hi
    ensures j.lockOd < 0 && NoneStopped(log) ==> SpunTime(clock, log) >= Max(j.exec, 0.0) - hi
  {
    CallBound(clock, wall, log[0], hi);
    if j.lockOd >= 0 {
      ChunksMakeTheBudget(j);
      CallBound(clock, wall, log[2], hi);
      CallBound(clock, wall, log[4], hi);
      LockedJobTime(clock, log);
    } else {
      assert SpunTime(clock, log[1..]) == 0.0 by { assert log[1..][1..] == []; }
    }
  }

  /**
   A critical section longer than the budget is still executed in full.  The calls
   around it make no pass, so the job takes the critical section and not the budget,
   and it overruns the budget as soon as the section exceeds it by more than one pass.
   */
  lemma LongCriticalSectionOverruns(log: seq<Event>, clock: nat -> real, wall: nat -> real, j: JobCall,
                                    k: nat, w: nat, hi: real)
    requires JobEvents(log, clock, wall, j, k, w) && AllSmooth(clock, log, hi)
    requires 0.0 <= j.random < 1.0 && j.cs > j.exec && j.cs >= 0.0 && j.lockOd >= 0
    ensures log[0].passes == 0 && log[4].passes == 0
    ensures SpunTime(clock, log) <= j.cs + 3.0 * hi
    ensures !log[2].stopped ==> SpunTime(clock, log) >= j.cs - hi
    ensures !log[2].stopped && j.cs > j.exec + hi ==> SpunTime(clock, log) > j.exec
  {
    ChunksMakeTheBudget(j);
    CallBound(clock, wall, log[0], hi);
    CallBound(clock, wall, log[2], hi);
    CallBound(clock, wall, log[4], hi);
    LockedJobTime(clock, log);
  }

  // ----- Lock discipline over whole runs -----

  /** Whether the lock is held after a log. */
  function Held(log: seq<Event>): bool {
    && log != []
    && var last := log[|log| - 1];
       last.Lock? || (!last.Unlock? && Held(log[..|log| - 1]))
  }

  /** The lock is taken only when free, released only when held, and never held at `sleep_next_period`. */
  ghost predicate Disciplined(log: seq<Event>) {
    forall i :: 0 <= i < |log| ==>
      && (log[i].Lock? ==> !Held(log[..i]))
      && (log[i].Unlock? ==> Held(log[..i]))
      && (log[i].Sleep? ==> !Held(log[..i]))
  }

  lemma Extend(log: seq<Event>, e: Event)
    requires Disciplined(log)
    requires (e.Lock? ==> !Held(log)) && (e.Unlock? ==> Held(log)) && (e.Sleep? ==> !Held(log))
    ensures Disciplined(log + [e])
    ensures Held(log + [e]) == (e.Lock? || (Held(log) && !e.Unlock?))
  {
    forall i | 0 <= i < |log| + 1 ensures (log + [e])[..i] == log[..i] {
    }
    assert log[..|log|] == log;
  }

  /** One more job keeps the discipline and leaves the lock free. */
  lemma JobIsDisciplined(before: seq<Event>, log: seq<Event>, clock: nat -> real, wall: nat -> real, j: JobCall,
                         k: nat, w: nat)
    requires Disciplined(before) && !Held(before)
    requires JobEvents(log, clock, wall, j, k, w)
    ensures Disciplined(before + log) && !Held(before + log)
  {
    hide Disciplined, Held;
    Extend(before, log[0]);
    Extend(before + [log[0]], log[1]);
    if j.lockOd >= 0 {
      var two := before + [log[0]] + [log[1]];
      Extend(two, log[2]);
      Extend(two + [log[2]], log[3]);
      var four := two + [log[2]] + [log[3]];
      Extend(four, log[4]);
      Extend(four + [log[4]], log[5]);
      assert before + log == four + [log[4]] + [log[5]];
    } else {
      assert before + log == before + [log[0]] + [log[1]];
    }
  }

  lemma {:induction false} StateIsKept(log: seq<Event>, i: nat, j: nat)
    requires i < j <= |log|
    ensures log[i].Lock? && (forall u :: i < u < j ==> !log[u].Unlock?) ==> Held(log[..j])
    ensures log[i].Unlock? && (forall u :: i < u < j ==> !log[u].Lock?) ==> !Held(log[..j])
    decreases j
  {
    assert log[..j][..j - 1] == log[..j - 1];
    if i < j - 1 {
      StateIsKept(log, i, j - 1);
    }
  }

  /** Between two lock calls there is an unlock call, and the other way round. */
  lemma LocksAlternate(log: seq<Event>, i: nat, j: nat)
    requires Disciplined(log) && i < j < |log|
    ensures log[i].Lock? && log[j].Lock? ==> exists u :: i < u < j && log[u].Unlock?
    ensures log[i].Unlock? && log[j].Unlock? ==> exists u :: i < u < j && log[u].Lock?
  {
    if log[i].Lock? && log[j].Lock? && forall u :: i < u < j ==> !log[u].Unlock? {
      StateIsKept(log, i, j);
    }
    if log[i].Unlock? && log[j].Unlock? && forall u :: i < u < j ==> !log[u].Lock? {
      StateIsKept(log, i, j);
    }
  }

  lemma {:induction false} HeldSince(log: seq<Event>, j: nat) returns (i: nat)
    requires j <= |log| && Held(log[..j])
    ensures i < j && log[i].Lock? && forall u :: i < u < j ==> !log[u].Unlock?
    decreases j
  {
    assert log[..j][..j - 1] == log[..j - 1];
    if log[j - 1].Lock? {
      i := j - 1;
    } else {
      i := HeldSince(log, j - 1);
    }
  }

  /** The thread never sleeps between a lock call and the unlock call that follows, and unlocks only what it has locked. */
  lemma NoSleepWithLock(log: seq<Event>, j: nat)
    requires Disciplined(log) && j < |log|
    ensures forall i :: 0 <= i < j && log[i].Lock? && log[j].Sleep? ==> exists u :: i < u < j && log[u].Unlock?
    ensures log[j].Unlock? ==> exists i :: 0 <= i < j && log[i].Lock? && forall u :: i < u < j ==> !log[u].Unlock?
  {
    forall i | 0 <= i < j && log[i].Lock? && log[j].Sleep?
      ensures exists u :: i < u < j && log[u].Unlock?
    {
      if forall u :: i < u < j ==> !log[u].Unlock? {
        StateIsKept(log, i, j);
      }
    }
    if log[j].Unlock? {
      var i := HeldSince(log, j);
    }
  }

  function Flatten(parts: seq<seq<Event>>): seq<Event> {
    if parts == [] then [] else Flatten(parts[..|parts| - 1]) + parts[|parts| - 1]
  }

  /** Nothing is lost or moved: the parts stand one behind the other, and nothing else is there. */
  lemma {:induction false} PartsInOrder(parts: seq<seq<Event>>, i: nat)
    requires i < |parts|
    ensures var before, all := Flatten(parts[..i]), Flatten(parts);
      && |before| + |parts[i]| <= |all|
      && all[..|before|] == before && all[|before|..|before| + |parts[i]|] == parts[i]
      && (i == 0 ==> before == []) && (i == |parts| - 1 ==> |before| + |parts[i]| == |all|)
    decreases |parts|
  {
    var init := parts[..|parts| - 1];
    if i < |init| {
      assert init[..i] == parts[..i];
      PartsInOrder(init, i);
    }
  }

  /**
   The loop over the jobs of a file in `main`.  `parts` are the events of the single
   jobs; job `i` takes the clocks over at the positions `ks[i]` and `ws[i]`, spends its
   own budget or, after the end of the program, nothing.
   */
  method RunJobs(jobs: seq<JobCall>, clock: nat -> real, wall: nat -> real,
                 ghost bound: (nat, nat, real, real) -> nat)
    returns (log: seq<Event>, ghost parts: seq<seq<Event>>, ghost ks: seq<nat>, ghost ws: seq<nat>)
    requires Ends(clock, wall, bound)
    ensures Disciplined(log) && !Held(log)
    ensures log == Flatten(parts) && |parts| == |jobs|
    ensures |ks| == |ws| == |jobs| + 1 && ks[0] == ws[0] == 0
    ensures forall i :: 0 <= i < |parts| ==> JobStep(parts[i], clock, wall, jobs[i], ks[i], ws[i], ks[i + 1], ws[i + 1])
  {
    log, parts, ks, ws := [], [], [0], [0];
    assert Disciplined(log) && !Held(log);
    hide Disciplined, Held, JobEvents;
    var k, w := 0, 0;
    for i := 0 to |jobs|
      invariant Disciplined(log) && !Held(log)
      invariant log == Flatten(parts) && |parts| == i
      invariant |ks| == |ws| == i + 1 && ks[0] == ws[0] == 0 && ks[i] == k && ws[i] == w
      invariant forall j :: 0 <= j < i ==> JobStep(parts[j], clock, wall, jobs[j], ks[j], ws[j], ks[j + 1], ws[j + 1])
    {
      ghost var k0, w0 := k, w;
      var ret, events;
      ret, events, k, w := Job(jobs[i], clock, k, wall, w, bound);
      if ret == 0 {
        assert log + events == log;
      } else {
        JobIsDisciplined(log, events, clock, wall, jobs[i], k0, w0 + 1);
      }
      assert (parts + [events])[..i] == parts;
      log, parts, ks, ws := log + events, parts + [events], ks + [k], ws + [w];
    }
  }
}
