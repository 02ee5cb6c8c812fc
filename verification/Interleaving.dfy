/**
 `enter_np` and `exit_np` of src/kernel_iface.c step by step, interleaved with
 kernel requests.

 The thread's stores to the counter pass through a store buffer: the kernel sees
 them in order but possibly late, and `__sync_synchronize` waits until the buffer is
 empty.  Every other step is atomic.  In particular a request of the kernel is one
 step: it looks at the counter in memory, and either sets the preempt bit or
 preempts at once.  Yielding clears the preempt bit.  The depth stays below the
 `limit` that the bit field imposes.
 */
module Interleaving {
  import opened Bits
  import NP = NonPreemptive

  /** Where the thread is: in application code, or about to take the named step. */
  datatype Pc = Outside | AtIncrement | AtDecrement | AtBarrier | AtTest | AtYield

  /**
   `memFlag` is the counter in memory, `buffer` holds the stores on their way to it.
   The counters at the end are bookkeeping: requests made, requests answered by an
   immediate preemption, requests answered by a yield, requests not yet answered.
   */
  datatype State = State(pc: Pc, mapped: bool, memFlag: nat, buffer: seq<nat>, preempt: bool,
                         requests: nat, direct: nat, served: nat, waiting: nat, yieldCount: nat)
  {
    /** The counter as the thread itself reads it. */
    function Flag(): nat {
      if buffer == [] then memFlag else buffer[|buffer| - 1]
    }
  }

  const START := State(Outside, false, 0, [], false, 0, 0, 0, 0, 0)

  datatype Step =
    | EnterCall(mapsNow: bool)
    | StoreIncrement
    | ExitCall
    | StoreDecrement
    | Barrier
    | TestPreempt
    | YieldCpu
    | Drain
    | KernelRequest

  /** With `fenced` false the barrier does not wait for the store buffer. */
  predicate Enabled(limit: nat, fenced: bool, s: State, step: Step) {
    match step
    case EnterCall(_) => s.pc.Outside?
    case StoreIncrement => s.pc.AtIncrement? && s.Flag() + 1 < limit
    case ExitCall => s.pc.Outside?
    case StoreDecrement => s.pc.AtDecrement?
    case Barrier => s.pc.AtBarrier? && (fenced ==> s.buffer == [])
    case TestPreempt => s.pc.AtTest?
    case YieldCpu => s.pc.AtYield?
    case Drain => s.buffer != []
    case KernelRequest => true
  }

  function Apply(s: State, step: Step): State {
    match step
    case EnterCall(mapsNow) =>
      if s.mapped || mapsNow then s.(mapped := true, pc := AtIncrement) else s
    case StoreIncrement =>
      s.(buffer := s.buffer + [s.Flag() + 1], pc := Outside)
    case ExitCall =>
      if s.mapped && s.Flag() != 0 then s.(pc := AtDecrement) else s
    case StoreDecrement =>
      var f := if s.Flag() == 0 then 0 else s.Flag() - 1;
      s.(buffer := s.buffer + [f], pc := if f == 0 then AtBarrier else Outside)
    case Barrier => s.(pc := AtTest)
    case TestPreempt => s.(pc := if s.preempt then AtYield else Outside)
    case YieldCpu =>
      s.(pc := Outside, preempt := false, served := s.served + s.waiting, waiting := 0, yieldCount := s.yieldCount + 1)
    case Drain =>
      if s.buffer == [] then s else s.(memFlag := s.buffer[0], buffer := s.buffer[1..])
    case KernelRequest =>
      if s.mapped && s.memFlag > 0
      then s.(requests := s.requests + 1, preempt := true, waiting := s.waiting + 1)
      else s.(requests := s.requests + 1, direct := s.direct + 1)
  }

  function Run(s: State, steps: seq<Step>): State
    decreases |steps|
  {
    if steps == [] then s else Run(Apply(s, steps[0]), steps[1..])
  }

  predicate Possible(limit: nat, fenced: bool, s: State, steps: seq<Step>)
    decreases |steps|
  {
    steps == [] || (Enabled(limit, fenced, s, steps[0]) && Possible(limit, fenced, Apply(s, steps[0]), steps[1..]))
  }

  /** In the part of `exit_np` that follows the decrement to zero. */
  predicate InExitTail(s: State) {
    s.pc.AtBarrier? || s.pc.AtTest? || s.pc.AtYield?
  }

  predicate Invariant(s: State) {
    && (s.preempt <==> s.waiting > 0)
    && s.requests == s.direct + s.served + s.waiting
    && s.yieldCount <= s.served
    && (!s.mapped ==> s.pc.Outside? && s.buffer == [] && s.memFlag == 0)
    && (s.pc.AtDecrement? ==> s.Flag() > 0)
    && (InExitTail(s) ==> s.Flag() == 0)
    && (s.pc.AtTest? || s.pc.AtYield? ==> s.buffer == [])
    && (s.pc.AtYield? ==> s.preempt)
    && (s.Flag() == 0 && !InExitTail(s) ==> s.buffer == [] && !s.preempt)
  }

  lemma StepKeepsInvariant(limit: nat, s: State, step: Step)
    requires Invariant(s) && Enabled(limit, true, s, step)
    ensures Invariant(Apply(s, step))
  {
  }

  /** What holds in every state that a run of the fenced system reaches. */
  lemma {:induction false} RunKeepsInvariant(limit: nat, s: State, steps: seq<Step>)
    requires Invariant(s) && Possible(limit, true, s, steps)
    ensures Invariant(Run(s, steps))
    decreases |steps|
  {
    if steps != [] {
      StepKeepsInvariant(limit, s, steps[0]);
      RunKeepsInvariant(limit, Apply(s, steps[0]), steps[1..]);
    }
  }

  /**
   Nothing is lost: a request is pending while the thread reads the counter as zero
   only between the decrement and the yield in `exit_np`; outside non-preemptive
   sections every request has been answered, by a yield or by an immediate
   preemption; and the thread never yields without a request.
   */
  predicate NothingLost(s: State) {
    && (s.preempt && s.Flag() == 0 ==> InExitTail(s))
    && (s.Flag() == 0 && !InExitTail(s) ==> s.requests == s.direct + s.served)
    && s.yieldCount <= s.served <= s.requests
  }

  lemma InvariantMeansNothingLost(s: State)
    requires Invariant(s)
    ensures NothingLost(s)
  {
  }

  lemma {:induction false} RequestsAreCounted(s: State, steps: seq<Step>)
    ensures Run(s, steps).requests == s.requests + multiset(steps)[KernelRequest]
    decreases |steps|
  {
    if steps != [] {
      assert steps == [steps[0]] + steps[1..];
      RequestsAreCounted(Apply(s, steps[0]), steps[1..]);
    }
  }

  lemma InvariantAtStart()
    ensures Invariant(START) && START.requests == 0
  {
    assert START.Flag() == 0;
  }

  /**
   In every interleaving of the thread, its store buffer and the kernel's requests,
   no preemption is lost, and every request is accounted for.
   */
  lemma NoLostPreemption(limit: nat, steps: seq<Step>)
    requires Possible(limit, true, START, steps)
    ensures NothingLost(Run(START, steps))
    ensures Run(START, steps).requests == multiset(steps)[KernelRequest]
  {
    InvariantAtStart();
    hide *;
    RunKeepsInvariant(limit, START, steps);
    InvariantMeansNothingLost(Run(START, steps));
    RequestsAreCounted(START, steps);
  }

  lemma {:induction false} AnswersAreKept(limit: nat, s: State, steps: seq<Step>)
    requires Possible(limit, true, s, steps)
    ensures Run(s, steps).served + Run(s, steps).waiting >= s.served + s.waiting
    decreases |steps|
  {
    if steps != [] {
      AnswersAreKept(limit, Apply(s, steps[0]), steps[1..]);
    }
  }

  lemma {:induction false} ServingTakesAYield(limit: nat, s: State, steps: seq<Step>)
    requires Possible(limit, true, s, steps)
    ensures Run(s, steps).yieldCount >= s.yieldCount
    ensures Run(s, steps).served > s.served ==> Run(s, steps).yieldCount > s.yieldCount
    decreases |steps|
  {
    if steps != [] {
      ServingTakesAYield(limit, Apply(s, steps[0]), steps[1..]);
    }
  }

  /** A request that is pending now has been answered by a yield when the thread next leaves its outermost section. */
  lemma PendingIsServedByTheEnd(limit: nat, s: State, steps: seq<Step>)
    requires Invariant(s) && Possible(limit, true, s, steps)
    requires Run(s, steps).Flag() == 0 && !InExitTail(Run(s, steps))
    ensures Run(s, steps).served >= s.served + s.waiting
    ensures s.waiting > 0 ==> Run(s, steps).yieldCount > s.yieldCount
  {
    hide Run, Possible;
    RunKeepsInvariant(limit, s, steps);
    AnswersAreKept(limit, s, steps);
    ServingTakesAYield(limit, s, steps);
  }

  // ----- The end of exit_np is reached -----

  /** How many steps of the thread or its store buffer are left at most. */
  function Remaining(s: State): nat {
    match s.pc
    case AtBarrier => |s.buffer| + 3
    case AtTest => 2
    case AtYield => 1
    case _ => 0
  }

  /** In the tail of `exit_np` some step is possible, every step but a request leads closer to the end, a request not away. */
  lemma ExitTailMakesProgress(limit: nat, s: State, step: Step)
    requires Invariant(s) && InExitTail(s)
    ensures exists own: Step :: !own.KernelRequest? && Enabled(limit, true, s, own)
    ensures Enabled(limit, true, s, step) ==>
              if step.KernelRequest? then Remaining(Apply(s, step)) == Remaining(s)
              else Remaining(Apply(s, step)) < Remaining(s)
  {
    if s.buffer != [] {
      assert Enabled(limit, true, s, Drain);
    } else {
      assert Enabled(limit, true, s, Barrier) || Enabled(limit, true, s, TestPreempt)
          || Enabled(limit, true, s, YieldCpu);
    }
  }

  // ----- Why the barrier is there -----

  lemma RunCons(limit: nat, fenced: bool, s: State, step: Step, rest: seq<Step>)
    ensures Run(s, [step] + rest) == Run(Apply(s, step), rest)
    ensures Possible(limit, fenced, s, [step] + rest) <==>
            Enabled(limit, fenced, s, step) && Possible(limit, fenced, Apply(s, step), rest)
  {
    assert ([step] + rest)[1..] == rest;
  }

  lemma RunNil(limit: nat, fenced: bool, s: State)
    ensures Run(s, []) == s && Possible(limit, fenced, s, [])
  {
  }

  /** Without waiting for the store buffer a request is lost: `exit_np` has ended, the request is pending and not answered. */
  lemma BarrierIsNeeded() returns (steps: seq<Step>)
    ensures Possible(4, false, START, steps)
    ensures !NothingLost(Run(START, steps))
    ensures var s := Run(START, steps);
      s.pc.Outside? && s.buffer == [] && s.Flag() == 0 && s.preempt && s.waiting == 1 && s.yieldCount == 0
  {
    hide Run, Possible;
    var s1 := Apply(START, EnterCall(true));
    var s2 := Apply(s1, StoreIncrement);
    var s3 := Apply(s2, Drain);
    var s4 := Apply(s3, ExitCall);
    var s5 := Apply(s4, StoreDecrement);
    var s6 := Apply(s5, Barrier);
    var s7 := Apply(s6, TestPreempt);
    var s8 := Apply(s7, KernelRequest);
    steps := [];
    RunNil(4, false, Apply(s8, Drain));
    RunCons(4, false, s8, Drain, steps);
    steps := [Drain] + steps;
    RunCons(4, false, s7, KernelRequest, steps);
    steps := [KernelRequest] + steps;
    RunCons(4, false, s6, TestPreempt, steps);
    steps := [TestPreempt] + steps;
    RunCons(4, false, s5, Barrier, steps);
    steps := [Barrier] + steps;
    RunCons(4, false, s4, StoreDecrement, steps);
    steps := [StoreDecrement] + steps;
    RunCons(4, false, s3, ExitCall, steps);
    steps := [ExitCall] + steps;
    RunCons(4, false, s2, Drain, steps);
    steps := [Drain] + steps;
    RunCons(4, false, s1, StoreIncrement, steps);
    steps := [StoreIncrement] + steps;
    RunCons(4, false, START, EnterCall(true), steps);
    steps := [EnterCall(true)] + steps;
  }

  // ----- Requests inside a section -----

  predicate OneApart(f: nat, g: nat) {
    f == g + 1 || g == f + 1
  }

  /**
   The stores on their way to memory change the counter `f` by one each, and only the
   last of them can be a store of zero.
   */
  predicate InOrder(f: nat, buffer: seq<nat>)
    decreases buffer
  {
    buffer == [] ||
    (OneApart(f, buffer[0]) && (|buffer| > 1 ==> buffer[0] > 0) && InOrder(buffer[0], buffer[1..]))
  }

  predicate StoresInOrder(s: State) {
    InOrder(s.memFlag, s.buffer)
  }

  lemma {:induction false} InOrderAppend(f: nat, buffer: seq<nat>, g: nat)
    requires InOrder(f, buffer)
    requires if buffer == [] then OneApart(f, g)
             else buffer[|buffer| - 1] > 0 && OneApart(buffer[|buffer| - 1], g)
    ensures InOrder(f, buffer + [g])
    decreases |buffer|
  {
    if buffer == [] {
      assert ([] + [g])[1..] == [];
    } else {
      assert (buffer + [g])[1..] == buffer[1..] + [g];
      InOrderAppend(buffer[0], buffer[1..], g);
    }
  }

  lemma StepKeepsOrder(limit: nat, s: State, step: Step)
    requires Invariant(s) && StoresInOrder(s) && Enabled(limit, true, s, step)
    ensures StoresInOrder(Apply(s, step))
  {
    match step
    case StoreIncrement => InOrderAppend(s.memFlag, s.buffer, s.Flag() + 1);
    case StoreDecrement => InOrderAppend(s.memFlag, s.buffer, s.Flag() - 1);
    case _ =>
  }

  lemma {:induction false} RunKeepsOrder(limit: nat, s: State, steps: seq<Step>)
    requires Invariant(s) && StoresInOrder(s) && Possible(limit, true, s, steps)
    ensures StoresInOrder(Run(s, steps))
    decreases |steps|
  {
    hide Invariant, StoresInOrder;
    if steps != [] {
      StepKeepsInvariant(limit, s, steps[0]);
      StepKeepsOrder(limit, s, steps[0]);
      RunKeepsOrder(limit, Apply(s, steps[0]), steps[1..]);
    }
  }

  /**
   A request that the kernel makes while the thread is in a section: it preempts at
   once if and only if the counter in memory is still zero, and then the store of the
   outermost `enter_np` has not arrived; otherwise it is deferred.
   */
  predicate SectionHolds(s: State) {
    var t := Apply(s, KernelRequest);
    && (t.direct == s.direct + 1 <==> s.memFlag == 0)
    && (s.memFlag > 0 ==> t.direct == s.direct && t.preempt && t.waiting == s.waiting + 1)
    && (s.memFlag == 0 ==> s.buffer != [] && s.buffer[0] == 1)
    && (s.buffer == [] ==> t.direct == s.direct)
  }

  lemma OrderMeansSectionHolds(s: State)
    requires Invariant(s) && StoresInOrder(s) && s.Flag() > 0
    ensures SectionHolds(s)
  {
  }

  lemma NothingToOrder(f: nat)
    ensures InOrder(f, [])
  {
  }

  lemma StartIsInOrder()
    ensures Invariant(START) && StoresInOrder(START)
  {
    hide InOrder;
    NothingToOrder(0);
  }

  /** This holds in every section of every run. */
  lemma RequestInSection(limit: nat, steps: seq<Step>)
    requires Possible(limit, true, START, steps) && Run(START, steps).Flag() > 0
    ensures SectionHolds(Run(START, steps))
  {
    hide *;
    StartIsInOrder();
    RunKeepsInvariant(limit, START, steps);
    RunKeepsOrder(limit, START, steps);
    OrderMeansSectionHolds(Run(START, steps));
  }

  /** `enter_np` has no barrier: a run in which a thread that has entered is preempted at once. */
  lemma EnterHasNoBarrier() returns (steps: seq<Step>)
    ensures Possible(4, true, START, steps)
    ensures var s := Run(START, steps);
      s.pc.Outside? && s.Flag() == 1 && s.direct == 1 && s.waiting == 0
  {
    hide Run, Possible;
    var s1 := Apply(START, EnterCall(true));
    var s2 := Apply(s1, StoreIncrement);
    steps := [];
    RunNil(4, true, Apply(s2, KernelRequest));
    RunCons(4, true, s2, KernelRequest, steps);
    steps := [KernelRequest] + steps;
    RunCons(4, true, s1, StoreIncrement, steps);
    steps := [StoreIncrement] + steps;
    RunCons(4, true, START, EnterCall(true), steps);
    steps := [EnterCall(true)] + steps;
  }

  // ----- The calls as sequences of steps -----

  /** The thread as src/kernel_iface.c sees it between two steps. */
  function View(s: State): NP.Thread {
    NP.Thread(if s.mapped then NP.Valid else NP.Null, s.Flag(), s.preempt, s.yieldCount, false)
  }

  /** Uninterrupted, `enter_np` has the effect of the call, for a counter of `w` bits and whatever stores are on their way. */
  lemma EnterStepsAreEnter(w: nat, s: State, mapsNow: bool)
    requires Invariant(s) && s.pc.Outside?
    requires s.Flag() + 1 < Pow2(w)
    ensures var steps := if s.mapped || mapsNow then [EnterCall(mapsNow), StoreIncrement] else [EnterCall(mapsNow)];
      && Possible(Pow2(w), true, s, steps)
      && var t := Run(s, steps);
         t.pc.Outside? && t.buffer == (if s.mapped || mapsNow then s.buffer + [s.Flag() + 1] else s.buffer)
         && View(t) == NP.AfterEnter(w, View(s), if mapsNow then NP.MapSucceeds else NP.OpenFails)
  {
    hide Run, Possible, Pow2;
    var s1 := Apply(s, EnterCall(mapsNow));
    if s.mapped || mapsNow {
      RunNil(Pow2(w), true, Apply(s1, StoreIncrement));
      RunCons(Pow2(w), true, s1, StoreIncrement, []);
      RunCons(Pow2(w), true, s, EnterCall(mapsNow), [StoreIncrement] + []);
      assert [EnterCall(mapsNow)] + ([StoreIncrement] + []) == [EnterCall(mapsNow), StoreIncrement];
    } else {
      RunNil(Pow2(w), true, s1);
      RunCons(Pow2(w), true, s, EnterCall(mapsNow), []);
      assert [EnterCall(mapsNow)] + [] == [EnterCall(mapsNow)];
    }
  }

  function Drains(n: nat): (r: seq<Step>)
    ensures |r| == n && forall k :: 0 <= k < n ==> r[k] == Drain
  {
    if n == 0 then [] else [Drain] + Drains(n - 1)
  }

  /** The store buffer can be emptied in every state, and then memory holds what the thread reads. */
  lemma {:induction false} DrainAll(limit: nat, s: State)
    ensures Possible(limit, true, s, Drains(|s.buffer|))
    ensures Run(s, Drains(|s.buffer|)) == s.(memFlag := s.Flag(), buffer := [])
    decreases |s.buffer|
  {
    hide Run, Possible;
    if s.buffer == [] {
      RunNil(limit, true, s);
    } else {
      DrainAll(limit, Apply(s, Drain));
      RunCons(limit, true, s, Drain, Drains(|s.buffer| - 1));
    }
  }

  /** The steps at the end of an `exit_np` that is not interrupted. */
  function TailSteps(preempt: bool): seq<Step> {
    [Barrier] + ([TestPreempt] + if preempt then [YieldCpu] + [] else [])
  }

  /** The steps of one `exit_np` that is not interrupted; at the barrier the store buffer has to be emptied. */
  function ExitSteps(s: State): seq<Step> {
    if !s.mapped || s.Flag() == 0 then [ExitCall] + []
    else [ExitCall] + ([StoreDecrement] + if s.Flag() == 1 then Drains(|s.buffer| + 1) + TailSteps(s.preempt) else [])
  }

  lemma TailStepsAreTail(limit: nat, s: State)
    requires Invariant(s) && s.pc.AtBarrier? && s.buffer == []
    ensures Possible(limit, true, s, TailSteps(s.preempt))
    ensures Run(s, TailSteps(s.preempt)) == if s.preempt then Apply(s.(pc := AtYield), YieldCpu) else s.(pc := Outside)
  {
    hide Run, Possible;
    var s1 := Apply(s, Barrier);
    var s2 := Apply(s1, TestPreempt);
    if s.preempt {
      RunNil(limit, true, Apply(s2, YieldCpu));
      RunCons(limit, true, s2, YieldCpu, []);
      RunCons(limit, true, s1, TestPreempt, [YieldCpu] + []);
      RunCons(limit, true, s, Barrier, [TestPreempt] + ([YieldCpu] + []));
    } else {
      RunNil(limit, true, s2);
      RunCons(limit, true, s1, TestPreempt, []);
      RunCons(limit, true, s, Barrier, [TestPreempt] + []);
    }
  }

  lemma {:induction false} RunConcat(limit: nat, fenced: bool, s: State, first: seq<Step>, second: seq<Step>)
    ensures Run(s, first + second) == Run(Run(s, first), second)
    ensures Possible(limit, fenced, s, first + second) <==>
            Possible(limit, fenced, s, first) && Possible(limit, fenced, Run(s, first), second)
    decreases |first|
  {
    if first == [] {
      assert first + second == second;
    } else {
      assert (first + second)[1..] == first[1..] + second;
      RunConcat(limit, fenced, Apply(s, first[0]), first[1..], second);
    }
  }

  lemma DrainKeepsInvariant(limit: nat, s: State)
    requires Invariant(s)
    ensures Invariant(s.(memFlag := s.Flag(), buffer := []))
  {
  }

  /** Uninterrupted, the steps of `exit_np` can be taken and have the effect of the call, whatever stores are on their way. */
  lemma ExitStepsAreExit(limit: nat, s: State)
    requires Invariant(s) && s.pc.Outside?
    ensures Possible(limit, true, s, ExitSteps(s))
    ensures var t := Run(s, ExitSteps(s));
      && t.pc.Outside? && View(t) == NP.AfterExit(View(s))
      && t.buffer == if !s.mapped || s.Flag() == 0 then s.buffer
                     else if s.Flag() == 1 then [] else s.buffer + [s.Flag() - 1]
  {
    hide Run, Possible, TailSteps;
    var s1 := Apply(s, ExitCall);
    if !s.mapped || s.Flag() == 0 {
      RunNil(limit, true, s1);
      RunCons(limit, true, s, ExitCall, []);
    } else {
      var s2 := Apply(s1, StoreDecrement);
      StepKeepsInvariant(limit, s, ExitCall);
      StepKeepsInvariant(limit, s1, StoreDecrement);
      var rest := if s.Flag() == 1 then Drains(|s2.buffer|) + TailSteps(s.preempt) else [];
      RunNil(limit, true, s2);
      if s.Flag() == 1 {
        var s3 := s2.(memFlag := s2.Flag(), buffer := []);
        DrainAll(limit, s2);
        TailStepsAreTail(limit, s3);
        RunConcat(limit, true, s2, Drains(|s2.buffer|), TailSteps(s.preempt));
      }
      RunCons(limit, true, s1, StoreDecrement, rest);
      RunCons(limit, true, s, ExitCall, [StoreDecrement] + rest);
    }
  }

  // ----- Every interleaving against the calls alone -----

  /** The call that a step begins. */
  function CallOf(step: Step): seq<NP.Event> {
    match step
    case EnterCall(mapsNow) => [NP.Enter(if mapsNow then NP.MapSucceeds else NP.OpenFails)]
    case ExitCall => [NP.Exit]
    case _ => []
  }

  /** The calls of a run, without the steps in between. */
  function Calls(steps: seq<Step>): seq<NP.Event> {
    if steps == [] then [] else Calls(steps[..|steps| - 1]) + CallOf(steps[|steps| - 1])
  }

  /**
   A state against the thread `c` that has made the same calls at once: outside of
   the calls and in the tail of `exit_np` the counters are equal, before its store a
   call is one behind.
   */
  predicate Agrees(w: nat, c: NP.Thread, s: State) {
    && !c.faulted
    && c.ctrl == (if s.mapped then NP.Valid else NP.Null)
    && c.flag == match s.pc
                 case AtIncrement => NP.Increment(w, s.Flag())
                 case AtDecrement => if s.Flag() == 0 then 0 else s.Flag() - 1
                 case _ => s.Flag()
  }

  lemma StepAgrees(w: nat, c: NP.Thread, s: State, step: Step)
    requires Invariant(s) && Enabled(Pow2(w), true, s, step) && Agrees(w, c, s)
    ensures Agrees(w, if CallOf(step) == [] then c else NP.After(w, c, CallOf(step)[0]), Apply(s, step))
  {
    hide Pow2;
  }

  lemma CallsMore(w: nat, c: NP.Thread, calls: seq<NP.Event>, step: Step)
    ensures NP.Run(w, c, calls + CallOf(step)) ==
            if CallOf(step) == [] then NP.Run(w, c, calls) else NP.After(w, NP.Run(w, c, calls), CallOf(step)[0])
  {
    hide NP.After;
    if CallOf(step) == [] {
      assert calls + CallOf(step) == calls;
    } else {
      assert (calls + CallOf(step))[..|calls|] == calls;
    }
  }

  lemma CallsSnoc(init: seq<Step>, last: Step)
    ensures Calls(init + [last]) == Calls(init) + CallOf(last)
  {
    assert (init + [last])[..|init|] == init;
  }

  lemma RunSnoc(limit: nat, init: seq<Step>, last: Step)
    requires Possible(limit, true, START, init + [last])
    ensures Possible(limit, true, START, init) && Enabled(limit, true, Run(START, init), last)
    ensures Run(START, init + [last]) == Apply(Run(START, init), last)
    ensures Invariant(Run(START, init))
  {
    hide *;
    RunConcat(limit, true, START, init, [last]);
    RunCons(limit, true, Run(START, init), last, []);
    RunNil(limit, true, Apply(Run(START, init), last));
    assert [last] + [] == [last];
    StartIsInOrder();
    RunKeepsInvariant(limit, START, init);
  }

  lemma NothingRunYet(w: nat)
    ensures Agrees(w, NP.Run(w, NP.START, Calls([])), Run(START, []))
  {
  }

  lemma {:induction false} RunAgrees(w: nat, steps: seq<Step>)
    requires Possible(Pow2(w), true, START, steps)
    ensures Agrees(w, NP.Run(w, NP.START, Calls(steps)), Run(START, steps))
    decreases |steps|
  {
    hide *;
    if steps == [] {
      NothingRunYet(w);
    } else {
      var init, last := steps[..|steps| - 1], steps[|steps| - 1];
      assert steps == init + [last];
      RunSnoc(Pow2(w), init, last);
      RunAgrees(w, init);
      StepAgrees(w, NP.Run(w, NP.START, Calls(init)), Run(START, init), last);
      CallsMore(w, NP.START, Calls(init), last);
      CallsSnoc(init, last);
    }
  }

  /**
   In every interleaving of a thread with a counter of `w` bits, its store buffer and
   the kernel's requests: between its calls the thread reads the counter, and has the
   page mapped, exactly as if every call had been one step.
   */
  lemma InterleavingRefinesCalls(w: nat, steps: seq<Step>)
    requires Possible(Pow2(w), true, START, steps) && Run(START, steps).pc.Outside?
    ensures Run(START, steps).Flag() == NP.Run(w, NP.START, Calls(steps)).flag
    ensures Run(START, steps).mapped <==> NP.Run(w, NP.START, Calls(steps)).ctrl == NP.Valid
    ensures !NP.Run(w, NP.START, Calls(steps)).faulted
  {
    hide Run, Possible, Calls, NP.Run;
    RunAgrees(w, steps);
  }
}
