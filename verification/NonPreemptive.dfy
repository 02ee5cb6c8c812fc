/**
 Non-preemptive sections, src/kernel_iface.c: `enter_np`, `exit_np` and
 `requested_to_preempt`, executed one call after the other.

 The kernel's header is not part of this model.  The counter is a bit field of `w`
 bits, a freshly mapped control page is zero, a request that finds the counter
 positive sets the preempt bit, and yielding clears it.
 */
module NonPreemptive {
  import opened Bits

  /** What `init_kernel_iface` meets when it maps the control page. */
  datatype MapOutcome = OpenFails | MmapFails | MapSucceeds

  /** The pointer `ctrl_page`: null, `MAP_FAILED`, or a mapped page. */
  datatype Pointer = Null | MapFailed | Valid

  datatype Thread = Thread(ctrl: Pointer, flag: nat, preempt: bool, yieldCount: nat, faulted: bool)

  datatype Event = Enter(outcome: MapOutcome) | Exit | Query | Request

  const START := Thread(Null, 0, false, 0, false)

  /** One more, in a field of `w` bits. */
  function Increment(w: nat, flag: nat): nat {
    if flag + 1 >= Pow2(w) then 0 else flag + 1
  }

  function AfterEnter(w: nat, s: Thread, outcome: MapOutcome): Thread {
    match s.ctrl
    case Valid => s.(flag := Increment(w, s.flag))
    case MapFailed => s.(faulted := true)
    case Null =>
      match outcome
      case OpenFails => s
      case MmapFails => s.(ctrl := MapFailed)
      case MapSucceeds => s.(ctrl := Valid, flag := Increment(w, 0), preempt := false)
  }

  function AfterExit(s: Thread): Thread {
    match s.ctrl
    case Null => s
    case MapFailed => s.(faulted := true)
    case Valid =>
      if s.flag != 1 then s.(flag := if s.flag == 0 then 0 else s.flag - 1)
      else s.(flag := 0, preempt := false, yieldCount := if s.preempt then s.yieldCount + 1 else s.yieldCount)
  }

  function AfterRequest(s: Thread): Thread {
    if s.ctrl.Valid? && s.flag > 0 then s.(preempt := true) else s
  }

  function After(w: nat, s: Thread, e: Event): Thread {
    if s.faulted then s
    else match e
      case Enter(outcome) => AfterEnter(w, s, outcome)
      case Exit => AfterExit(s)
      case Query => if s.ctrl.MapFailed? then s.(faulted := true) else s
      case Request => AfterRequest(s)
  }

  function Run(w: nat, s: Thread, events: seq<Event>): Thread {
    if events == [] then s else After(w, Run(w, s, events[..|events| - 1]), events[|events| - 1])
  }

  // ----- The code -----

  class NpThread {
    const w: nat
    var ctrl: Pointer
    var flag: nat
    var preempt: bool
    var yieldCount: nat
    var faulted: bool

    function State(): Thread
      reads this
    {
      Thread(ctrl, flag, preempt, yieldCount, faulted)
    }

    constructor (w: nat)
      ensures this.w == w && State() == START
    {
      this.w := w;
      ctrl, flag, preempt, yieldCount, faulted := Null, 0, false, 0, false;
    }

    /** `map_file` and the assignment to `ctrl_page`; a new page holds zeros. */
    method InitKernelIface(outcome: MapOutcome) returns (err: int)
      modifies this
      ensures (err == 0) == outcome.MapSucceeds?
      ensures State() == match outcome
        case OpenFails => old(State()).(ctrl := Null)
        case MmapFails => old(State()).(ctrl := MapFailed)
        case MapSucceeds => old(State()).(ctrl := Valid, flag := 0, preempt := false)
    {
      var mappedAt := Null;
      err := 0;
      if outcome.OpenFails? {
        err := -1;
      } else if outcome.MmapFails? {
        mappedAt := MapFailed;
        err := -1;
      } else {
        mappedAt := Valid;
        flag, preempt := 0, false;
      }
      ctrl := mappedAt;
    }

    method EnterNp(outcome: MapOutcome)
      requires !faulted
      modifies this
      ensures State() == After(w, old(State()), Enter(outcome))
    {
      var usable := ctrl != Null;
      if !usable {
        var err := InitKernelIface(outcome);
        usable := err == 0;
      }
      if usable {
        if ctrl.MapFailed? {
          faulted := true;
        } else {
          flag := Increment(w, flag);
        }
      }
    }

    /** `sched_yield`: the kernel takes notice of the request. */
    method SchedYield()
      modifies this
      ensures State() == old(State()).(preempt := false, yieldCount := old(yieldCount) + 1)
    {
      yieldCount := yieldCount + 1;
      preempt := false;
    }

    method ExitNp()
      requires !faulted
      modifies this
      ensures State() == After(w, old(State()), Exit)
    {
      if ctrl != Null {
        if ctrl.MapFailed? {
          faulted := true;
        } else if flag != 0 {
          flag := flag - 1;
          if flag == 0 {
            if preempt {
              SchedYield();
            }
          }
        }
      }
    }

    method RequestedToPreempt() returns (r: bool)
      requires !faulted
      modifies this
      ensures State() == After(w, old(State()), Query)
      ensures ctrl != MapFailed ==> r == (ctrl.Valid? && preempt)
    {
      r := false;
      if ctrl != Null {
        if ctrl.MapFailed? {
          faulted := true;
        } else {
          r := preempt;
        }
      }
    }
  }

  // ----- Nesting over whole runs -----

  /** The nesting depth after a run of a thread whose page is mapped; unmatched exits have no effect. */
  function Depth(events: seq<Event>): nat {
    if events == [] then 0
    else var d := Depth(events[..|events| - 1]);
      match events[|events| - 1]
      case Enter(_) => d + 1
      case Exit => if d == 0 then 0 else d - 1
      case Query => d
      case Request => d
  }

  /** Whether the kernel has asked for a preemption in the section the run ends in. */
  predicate RequestedInSection(events: seq<Event>) {
    && events != []
    && Depth(events) > 0
    && (events[|events| - 1].Request? || RequestedInSection(events[..|events| - 1]))
  }

  ghost predicate DepthFits(w: nat, events: seq<Event>) {
    forall k :: 0 <= k <= |events| ==> Depth(events[..k]) < Pow2(w)
  }

  const MAPPED := Thread(Valid, 0, false, 0, false)

  lemma {:induction false} StateOfRun(w: nat, events: seq<Event>)
    requires DepthFits(w, events)
    ensures var s := Run(w, MAPPED, events);
      s.ctrl == Valid && !s.faulted && s.flag == Depth(events) && s.preempt == RequestedInSection(events)
  {
    if events != [] {
      var init := events[..|events| - 1];
      assert forall k :: 0 <= k <= |init| ==> init[..k] == events[..k];
      StateOfRun(w, init);
      assert events[..|events|] == events;
    }
  }

  lemma {:induction false} CounterStaysInField(w: nat, events: seq<Event>)
    ensures Run(w, MAPPED, events).flag < Pow2(w)
  {
    if events != [] {
      CounterStaysInField(w, events[..|events| - 1]);
    }
  }

  /**
   For every run of calls and requests, unmatched exits included: the counter equals
   the nesting depth throughout, if and only if the depth always fits the bit field.
   */
  lemma CounterIsDepth(w: nat, events: seq<Event>)
    ensures (forall k :: 0 <= k <= |events| ==> Run(w, MAPPED, events[..k]).flag == Depth(events[..k]))
            <==> DepthFits(w, events)
  {
    forall k | 0 <= k <= |events| ensures Run(w, MAPPED, events[..k]).flag < Pow2(w) {
      CounterStaysInField(w, events[..k]);
    }
    if DepthFits(w, events) {
      forall k | 0 <= k <= |events| ensures Run(w, MAPPED, events[..k]).flag == Depth(events[..k]) {
        assert forall l :: 0 <= l <= k ==> events[..k][..l] == events[..l];
        StateOfRun(w, events[..k]);
      }
    }
  }

  /** A counter that is only incremented counts modulo 2^w: when it is full the next call makes it zero. */
  lemma {:induction false} FullCounterWraps(w: nat, events: seq<Event>)
    requires forall i :: 0 <= i < |events| ==> events[i].Enter?
    ensures Run(w, MAPPED, events).flag == |events| % Pow2(w)
    ensures Run(w, MAPPED, events).ctrl == Valid && !Run(w, MAPPED, events).faulted
  {
    if events != [] {
      hide Pow2;
      var n := |events| - 1;
      FullCounterWraps(w, events[..n]);
      OneMoreModulo(n, Pow2(w));
    } else {
      OneMoreModulo(0, Pow2(w));
    }
  }

  /** The outermost sections of a run that were left with a request pending. */
  function SectionsLeftWithRequest(events: seq<Event>): nat {
    if events == [] then 0
    else
      var init := events[..|events| - 1];
      SectionsLeftWithRequest(init)
      + if events[|events| - 1].Exit? && Depth(init) == 1 && RequestedInSection(init) then 1 else 0
  }

  /** A run yields once for each of these sections and never else. */
  lemma {:induction false} YieldsAreDeferredPreemptions(w: nat, events: seq<Event>)
    requires DepthFits(w, events)
    ensures Run(w, MAPPED, events).yieldCount == SectionsLeftWithRequest(events)
  {
    if events != [] {
      var init := events[..|events| - 1];
      assert forall k :: 0 <= k <= |init| ==> init[..k] == events[..k];
      YieldsAreDeferredPreemptions(w, init);
      StateOfRun(w, init);
    }
  }

  // ----- A mapping that fails -----

  /** The first call that gets past `open` is number `i`, and it ends with this outcome. */
  ghost predicate FirstMapping(events: seq<Event>, i: nat, outcome: MapOutcome) {
    && i < |events| && events[i] == Enter(outcome) && outcome != OpenFails
    && forall k :: 0 <= k < i && events[k].Enter? ==> events[k].outcome == OpenFails
  }

  predicate OnlyOpenFails(events: seq<Event>) {
    forall k :: 0 <= k < |events| && events[k].Enter? ==> events[k].outcome == OpenFails
  }

  lemma FirstMappingOfPrefix(events: seq<Event>, i: nat, outcome: MapOutcome)
    requires events != []
    ensures var n := |events| - 1;
      FirstMapping(events, i, outcome) <==>
        || FirstMapping(events[..n], i, outcome)
        || (i == n && events[n] == Enter(outcome) && outcome != OpenFails && OnlyOpenFails(events[..n]))
  {
  }

  lemma {:induction false} PointerOfRun(w: nat, events: seq<Event>)
    ensures var p := Run(w, START, events).ctrl;
      && (p == Null <==> OnlyOpenFails(events))
      && (p == MapFailed <==> exists i: nat :: FirstMapping(events, i, MmapFails))
    ensures Run(w, START, events).faulted ==> Run(w, START, events).ctrl == MapFailed
  {
    if events != [] {
      var n := |events| - 1;
      var init, last := events[..n], events[n];
      PointerOfRun(w, init);
      assert OnlyOpenFails(events) <==> OnlyOpenFails(init) && (last.Enter? ==> last.outcome == OpenFails) by {
        assert events == init + [last];
      }
      forall i: nat
        ensures FirstMapping(events, i, MmapFails) <==>
                FirstMapping(init, i, MmapFails) || (i == n && last == Enter(MmapFails) && OnlyOpenFails(init))
      {
        FirstMappingOfPrefix(events, i, MmapFails);
      }
      if last == Enter(MmapFails) && OnlyOpenFails(init) {
        assert FirstMapping(events, n, MmapFails);
      }
    }
  }

  /** A call looks at the page after the first mapping has failed in `mmap`. */
  ghost predicate UsesFailedMapping(events: seq<Event>) {
    exists i: nat, j: nat :: FirstMapping(events, i, MmapFails) && i < j < |events| && !events[j].Request?
  }

  /**
   After a failed `mmap` the pointer is not null, so the next call that looks at the
   page faults: a run faults if and only if its first mapping fails in `mmap` and
   some call follows.
   */
  lemma {:induction false} FaultsExactlyAfterFailedMmap(w: nat, events: seq<Event>)
    ensures Run(w, START, events).faulted <==> UsesFailedMapping(events)
  {
    if events != [] {
      var n := |events| - 1;
      var init := events[..n];
      FaultsExactlyAfterFailedMmap(w, init);
      PointerOfRun(w, init);
      if Run(w, START, init).faulted {
        var i: nat, j: nat :| FirstMapping(init, i, MmapFails) && i < j < n && !init[j].Request?;
        FirstMappingOfPrefix(events, i, MmapFails);
        assert !events[j].Request?;
      } else if Run(w, START, events).faulted {
        var i: nat :| FirstMapping(init, i, MmapFails);
        FirstMappingOfPrefix(events, i, MmapFails);
        assert i < n && !events[n].Request?;
      }
      if UsesFailedMapping(events) {
        var i: nat, j: nat :| FirstMapping(events, i, MmapFails) && i < j <= n && !events[j].Request?;
        FirstMappingOfPrefix(events, i, MmapFails);
        if j < n {
          assert !init[j].Request?;
        }
      }
    }
  }

  /**
   Otherwise nothing happens until the page is mapped, and from then on the run is
   one of a thread that starts with a mapped page.
   */
  lemma {:induction false} RunFromFirstMapping(w: nat, events: seq<Event>, i: nat)
    requires i <= |events| && OnlyOpenFails(events[..i])
    requires i < |events| ==> events[i] == Enter(MapSucceeds)
    ensures Run(w, START, events) == if i == |events| then START else Run(w, MAPPED, events[i..])
    decreases |events|
  {
    if events != [] {
      var n := |events| - 1;
      var init := events[..n];
      if i == n + 1 {
        assert events[..i] == events && init[..n] == init;
        RunFromFirstMapping(w, init, n);
      } else {
        assert init[..i] == events[..i];
        RunFromFirstMapping(w, init, i);
        assert events[i..][..n - i] == init[i..];
      }
    }
  }
}
