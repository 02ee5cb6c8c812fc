/**
 Placing a thread: `be_migrate_thread_to_domain` in src/migration.c and the
 `sporadic_*` functions in src/litmus.c.

 The system calls they issue are recorded in a log; what `sched_setaffinity` and
 `set_rt_task_param` return is a parameter.  Every reading of the mapping file is
 a parameter too: the file is read once to migrate and once to find the first CPU.
 */
module Placement {
  import opened CLib
  import opened FileIO
  import opened Migration
  import Bits
  import MaskText

  datatype TaskClass = RT_CLASS_HARD | RT_CLASS_SOFT | RT_CLASS_BEST_EFFORT
  datatype BudgetPolicy = NO_ENFORCEMENT | QUANTUM_ENFORCEMENT | PRECISE_ENFORCEMENT
  datatype ReleasePolicy = TASK_SPORADIC | TASK_PERIODIC
  datatype Priority = Fixed(prio: nat) | LITMUS_LOWEST_PRIORITY

  /** The values of a `struct rt_task` as the kernel receives them. */
  datatype Params = Params(execCost: nat, period: nat, relativeDeadline: nat, phase: nat, cpu: int,
                           priority: Priority, cls: TaskClass, budget: BudgetPolicy, release: ReleasePolicy)

  function Defaults(): Params {
    Params(0, 0, 0, 0, 0, LITMUS_LOWEST_PRIORITY, RT_CLASS_SOFT, NO_ENFORCEMENT, TASK_SPORADIC)
  }

  class RtTask {
    var execCost: nat
    var period: nat
    var relativeDeadline: nat
    var phase: nat
    var cpu: int
    var priority: Priority
    var cls: TaskClass
    var budget: BudgetPolicy
    var release: ReleasePolicy

    constructor () {
    }

    function Values(): Params
      reads this
    {
      Params(execCost, period, relativeDeadline, phase, cpu, priority, cls, budget, release)
    }

    /** `init_rt_task_param`: everything is zero except the four defaults. */
    method Init()
      modifies this
      ensures Values() == Defaults()
      ensures execCost == period == relativeDeadline == phase == cpu == 0
      ensures cls == RT_CLASS_SOFT && priority == LITMUS_LOWEST_PRIORITY
      ensures budget == NO_ENFORCEMENT && release == TASK_SPORADIC
    {
      execCost, period, relativeDeadline, phase, cpu := 0, 0, 0, 0, 0;
      cls := RT_CLASS_SOFT;
      priority := LITMUS_LOWEST_PRIORITY;
      budget := NO_ENFORCEMENT;
      release := TASK_SPORADIC;
    }
  }

  datatype Syscall =
    | SetAffinity(tid: int, size: nat, cpus: set<nat>)
    | SetRtTaskParam(pid: int, param: Params)

  /** One reading of a mapping file, with the number of CPUs that are online at that moment. */
  datatype Reading = Reading(online: CInt, file: File)
  {
    function Result(): Mapping {
      MappingOf(online, file)
    }

    /** What `domain_to_first_cpu` returns when `n` CPUs are online as it searches. */
    ghost function FirstCpu(n: CInt): int {
      if Result().Ret() != 0 then Result().Ret() else FirstOnline(Result().Cpus(), 0, n)
    }

    /** The affinity request that follows this reading; a missing set has size 0. */
    ghost function Affinity(tid: int): Syscall {
      SetAffinity(tid, Result().Capacity() / 8, Result().Cpus())
    }
  }

  /** The file holds a text in the documented format that fits the buffer. */
  predicate HoldsMask(file: File) {
    file.Readable? && MaskText.WellFormed(file.content) && |file.content| < BUF_SIZE
  }

  /**
   The call asks that thread `tid` run on the CPUs whose bits are set in the number
   that `text` denotes; its size is that of the bits of the text in whole 64-bit words.
   */
  ghost predicate AsksForMask(call: Syscall, tid: int, text: string)
    requires MaskText.WellFormed(text)
  {
    var nbits := 32 * (|text| / 9) + 4 * (|text| % 9);
    && call.SetAffinity? && call.tid == tid
    && call.size % 8 == 0 && nbits <= 8 * call.size < nbits + 64
    && forall x: nat :: x in call.cpus <==> Bits.Bit(MaskText.Denoted(text), x)
  }

  lemma AffinityAsksForMask(tid: int, reading: Reading)
    requires HoldsMask(reading.file) && reading.Result().Ret() == 0
    ensures AsksForMask(reading.Affinity(tid), tid, reading.file.content)
  {
    hide MaskText.WellFormed, MaskText.Denoted, Bits.Bit, SomeReadFails;
    var text := reading.file.content;
    ReadTextIsParsed(text, reading.file.schedule, reading.online);
    forall x: nat ensures x in Parsed(text).Cpus() <==> Bits.Bit(MaskText.Denoted(text), x) {
      CpusOfText(text, x);
    }
  }

  /** `be_migrate_thread_to_domain`; thread 0 stands for the caller, `self`. */
  method MigrateThreadToDomain(tid: int, self: int, reading: Reading, affinityRet: int)
    returns (ret: int, log: seq<Syscall>)
    ensures reading.Result().Ret() != 0 ==> ret == reading.Result().Ret() && log == []
    ensures reading.Result().Ret() == 0 ==>
              ret == affinityRet && log == [reading.Affinity(if tid == 0 then self else tid)]
    ensures CannotRead(reading.online, reading.file) ==> ret == -1 && log == []
    ensures reading.online <= 4096 && reading.file.Readable? && ErrorFree(reading.file.schedule) ==>
              ret == affinityRet && |log| == 1
    ensures log != [] && HoldsMask(reading.file) ==>
              AsksForMask(log[0], if tid == 0 then self else tid, reading.file.content)
  {
    hide MaskText.WellFormed, AsksForMask, SomeReadFails;
    var cpus, sz;
    ghost var starts;
    ret, cpus, sz, starts := ReadMapping(reading.online, reading.file);
    if ret != 0 {
      return ret, [];
    }
    var target := tid;
    if target == 0 {
      target := self;
    }
    log := [SetAffinity(target, sz, if cpus == null then {} else cpus.Members())];
    if HoldsMask(reading.file) {
      AffinityAsksForMask(target, reading);
    }
    ret := affinityRet;
  }

  /** The call sets cost, period and CPU of thread `self`, and leaves everything else at its default. */
  predicate SetsParameters(call: Syscall, self: int, e: nat, p: nat) {
    && call.SetRtTaskParam? && call.pid == self
    && call.param.execCost == e && call.param.period == p
    && call.param.relativeDeadline == call.param.phase == 0
    && call.param.priority == LITMUS_LOWEST_PRIORITY && call.param.cls == RT_CLASS_SOFT
    && call.param.budget == NO_ENFORCEMENT && call.param.release == TASK_SPORADIC
  }

  /** `sporadic_partitioned`; `sporadic_clustered` differs from it in a warning text only. */
  method SporadicPartitioned(e: nat, p: nat, self: int, toMigrate: Reading, toFind: Reading, online: CInt,
                             affinityRet: int, paramRet: int) returns (ret: int, log: seq<Syscall>)
    ensures toMigrate.Result().Ret() != 0 ==> ret == toMigrate.Result().Ret() && log == []
    ensures toMigrate.Result().Ret() == 0 && affinityRet != 0 ==>
              ret == affinityRet && log == [toMigrate.Affinity(self)]
    ensures toMigrate.Result().Ret() == 0 && affinityRet == 0 ==>
              && ret == paramRet
              && log == [toMigrate.Affinity(self),
                         SetRtTaskParam(self, Defaults().(execCost := e, period := p, cpu := toFind.FirstCpu(online)))]
    ensures CannotRead(toMigrate.online, toMigrate.file) ==> ret == -1 && log == []
    ensures toMigrate.online <= 4096 && toMigrate.file.Readable? && ErrorFree(toMigrate.file.schedule) ==>
              |log| == if affinityRet == 0 then 2 else 1
    ensures log != [] && HoldsMask(toMigrate.file) ==> AsksForMask(log[0], self, toMigrate.file.content)
    ensures |log| <= 2 && (|log| == 2 ==> ret == paramRet && SetsParameters(log[1], self, e, p))
    ensures |log| == 2 && CannotRead(toFind.online, toFind.file) ==> log[1].param.cpu == -1
  {
    hide MaskText.WellFormed, MaskText.Denoted, AsksForMask, SomeReadFails;
    ret, log := MigrateThreadToDomain(0, self, toMigrate, affinityRet);
    if ret != 0 {
      return;
    }
    var param := new RtTask();
    param.Init();
    param.execCost := e;
    param.period := p;
    param.cpu := DomainToFirstCpu(toFind.online, online, toFind.file);
    log := log + [SetRtTaskParam(self, param.Values())];
    ret := paramRet;
  }

  /** The parameter is the least online member of the set, or -1 if there is none. */
  ghost predicate IsLeastOnline(cpu: int, s: set<nat>, online: CInt) {
    if forall x :: x in s ==> x >= online then cpu == -1
    else cpu in s && cpu < online && forall x :: x in s ==> cpu <= x
  }

  lemma FirstOnlineIsLeast(s: set<nat>, online: CInt)
    ensures IsLeastOnline(FirstOnline(s, 0, online), s, online)
    ensures !(forall x :: x in s ==> x >= online) ==> !IsLeastOnline(-1, s, online)
  {
    var f := FirstOnline(s, 0, online);
    if exists x :: x in s && x < online {
      var x :| x in s && x < online;
      assert f != -1;
    }
  }

  /**
   With an unchanged file, whenever the parameters are set: the affinity that was
   requested is the set `s` that the file yields, and the CPU parameter is the least
   online member of `s`, or -1 if there is none, if and only if the second reading
   succeeds or no member is online.  After a failed second reading it is -1.  This
   holds for every content of the file and for all ways of reading it.
   */
  lemma PlacementIsConsistent(content: string, first: nat -> int, second: nat -> int,
                              onlineFirst: CInt, onlineSecond: CInt, online: CInt, self: int)
    requires Reading(onlineFirst, Readable(content, first)).Result().Ret() == 0
    ensures var toMigrate := Reading(onlineFirst, Readable(content, first));
            var toFind := Reading(onlineSecond, Readable(content, second));
            var s, cpu := toMigrate.Affinity(self).cpus, toFind.FirstCpu(online);
      && s == toMigrate.Result().Cpus()
      && cpu == (if toFind.Result().Ret() == 0 then FirstOnline(s, 0, online) else -1)
      && (IsLeastOnline(cpu, s, online) <==>
          toFind.Result().Ret() == 0 || forall x :: x in s ==> x >= online)
  {
    hide SomeReadFails;
    var toMigrate := Reading(onlineFirst, Readable(content, first));
    var s := toMigrate.Result().Cpus();
    FirstOnlineIsLeast(s, online);
  }

  function OneByte(i: nat): int { 1 }

  function Fails(i: nat): int { -1 }

  lemma DigitOne()
    ensures MaskText.WellFormed("1") && Bits.Bit(MaskText.Denoted("1"), 0)
  {
    hide MaskText.WellFormed, MaskText.Denoted;
    MaskText.OneDigit('1');
  }

  lemma FirstReadFails()
    ensures SomeReadFails("1", Fails, 0, 0, BUF_SIZE - 1)
  {
  }

  /** One case of it: CPU 0 is online and in the domain, and the second reading fails. */
  lemma FailedSecondReading()
    ensures var toMigrate := Reading(1, Readable("1", OneByte));
            var toFind := Reading(1, Readable("1", Fails));
      && toMigrate.Result().Ret() == 0 && 0 in toMigrate.Result().Cpus()
      && toFind.FirstCpu(1) == -1
  {
    hide SomeReadFails, MaskText.WellFormed, MaskText.Denoted, Bits.Bit;
    DigitOne();
    WholeTextIsParsed("1", OneByte, 1);
    CpusOfText("1", 0);
    FirstReadFails();
  }

  /** For a printed mask that set is the set that was printed. */
  lemma PlacementFollowsPrintedMask(d: set<nat>, n: nat, k: nat, first: nat -> int, second: nat -> int,
                                    onlineFirst: CInt, onlineSecond: CInt, online: CInt, self: int)
    requires 1 <= k <= 8 && 32 * n + 4 * k <= MAX_CPUS
    requires forall x :: x in d ==> x < 32 * n + 4 * k
    requires Reading(onlineFirst, Readable(MaskText.PrintMask(d, n, k), first)).Result().Ret() == 0
    ensures var text := MaskText.PrintMask(d, n, k);
            var toFind := Reading(onlineSecond, Readable(text, second));
      && Reading(onlineFirst, Readable(text, first)).Affinity(self).cpus == d
      && toFind.FirstCpu(online) == (if toFind.Result().Ret() == 0 then FirstOnline(d, 0, online) else -1)
      && (IsLeastOnline(toFind.FirstCpu(online), d, online) <==>
          toFind.Result().Ret() == 0 || forall x :: x in d ==> x >= online)
  {
    hide SomeReadFails, MaskText.PrintMask;
    ReadBackWhenRead(d, n, k, first, onlineFirst);
    PlacementIsConsistent(MaskText.PrintMask(d, n, k), first, second, onlineFirst, onlineSecond, online, self);
  }
}
