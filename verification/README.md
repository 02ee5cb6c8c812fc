# A verified model of liblitmus

liblitmus is the user-space library of LITMUS^RT, a real-time extension of the
Linux kernel.  Most of it wraps system calls.  This project models the parts that
compute or keep state, in Dafny 4.11, and proves what they are for.
`dafny verify dfyconfig.toml` checks all of it.

| file | models |
|---|---|
| `CLib.dfy` | the pieces of the C library and its types that several modules share |
| `Bits.dfy` | binary representation of natural numbers: shifts, single bits, `ffsl` |
| `MaskText.dfy` | the text of a CPU mask: format, meaning, printer, `strtoul`, the right-to-left scan |
| `FileIO.dfy` | `read_file` over arbitrary short reads |
| `Migration.dfy` | `read_mapping` and its consumers |
| `Placement.dfy` | migrating to a domain and setting up a sporadic task |
| `NonPreemptive.dfy` | `enter_np`, `exit_np`, `requested_to_preempt` as calls |
| `Interleaving.dfy` | the same calls step by step, with a store buffer and kernel requests in between |
| `ExecTimes.dfy` | the two-pass reader for execution-time files |
| `Spin.dfy` | the calibrated spin loop, jobs with a critical section, runs of jobs |
| `TimeSpec.dfy` | normalising, adding and subtracting `struct timespec` |
| `MaxAlloc.dfy` | the doubling allocator and its bookkeeping |
| `Catalog.dfy` | the test catalogue generator and the test runner |

Main results:

- **CPU masks.** `read_mapping` is modelled for every content of the file, malformed
  ones included.  On well-formed text it yields exactly the bits of the hexadecimal
  number that the text denotes (`ScanDenotes`, `CpusOfText`); printing a set and
  reading it back gives the set (`ReadBackPrinted`), and reading a text and printing
  it gives the text (`PrintRestoresText`).  How the kernel cuts the file into reads
  does not matter (`ChunkingIsInvisible`).  The 64-bit mask and the first CPU agree with
  the denoted number (`DomainToCpus`, `DomainToFirstCpu`).
- **Placement.** The affinity that a task requests is the domain's set.  Its CPU
  parameter is the least online member, or -1 if there is none, if and only if the
  second reading of the file succeeds or no member is online (`PlacementIsConsistent`).
  The code does not check that reading: after a failure it sets the parameter to -1
  although members are online (`FailedSecondReading`).
- **A trailing newline** is outside the documented format.  `CpusWithNewline` states
  exactly which CPUs `read_mapping` then delivers: CPUs 28 to 31 of every 32 are missed,
  and a first group of eight digits is found once more, 32 CPUs higher, as far as the
  set has room for it, which is so for an odd number of groups.  The newline does no harm
  if and only if no group of eight digits starts with a non-zero digit and, for a first
  group of eight digits among an odd number of groups, that group is zero
  (`NewlineIsHarmlessExactly`).  `NewlineLosesCpu31` gives a text that is misread.
- **A text that does not fit the buffer** is cut, since the code tests the number of
  online CPUs and not the length; what is parsed is then never well formed
  (`LongTextIsCut`), and CPUs are lost (`LongTextLosesCpu0`).
- **Non-preemptive sections.** No preemption is lost in any interleaving
  (`NoLostPreemption`), with stores to the counter delayed arbitrarily up to the
  barrier; without the barrier one is (`BarrierIsNeeded`).  Between its calls the thread
  reads the counter that the calls alone would have given it, in every interleaving
  (`InterleavingRefinesCalls`).  The counter equals the
  nesting depth if and only if the depth fits the bit field (`CounterIsDepth`).  Inside a
  section a request is deferred, except exactly while the store of the outermost
  `enter_np`, which has no barrier, has not reached memory (`RequestInSection`).
- **A failed `mmap`** leaves `ctrl_page` at `MAP_FAILED`, which is not null; a run faults
  if and only if a call follows it (`FaultsExactlyAfterFailedMmap`).
- **rtspin.** The second pass reads every number inside its own data line if and only if
  every data line has a number in the wanted column (`OwnLinesExactly`); then both passes
  over the file agree (`PassesAgree`).  `GetExecTimes` says on the positions in the file
  which of its exits is taken: one time for every job, the first job without a number, or
  the end of the file with jobs left.  `BlankLineBreaksAgreement` and `LoadedIsNotEnough`
  show files for which they do not, one of them without any error.  The source speaks of a
  CSV file, but commas do not separate columns (`CommasSelectNoColumn`).  The spin loop stays
  within its last measured costs of the request (`SpinBound`) and ends (`ProgressEndsLoop`);
  locks alternate over whole runs, and no job sleeps with the lock (`NoSleepWithLock`).  Up to one pass for each spin, the CPU time of a job is
  its budget or, when that is larger, its critical section (`JobTimeBound`); a critical
  section that exceeds the budget by more than one pass makes the job overrun
  (`LongCriticalSectionOverruns`).
- **Time.** `timespec_normalize` compares with `>`, so its result is canonical except
  exactly for positive multiples of 10^9 nanoseconds; `timespec_sub` undoes
  `timespec_add`, the other order fails in one exact case, and elapsed microseconds are
  exact all the same.
- **The allocator** maps what the kernel offers, call by call, up to the first refused
  call, and the kernel's answers determine the whole run (`DoMaxAlloc`, `RunIsDetermined`).
  It ends for every kernel, because the size wraps to 0 and an empty mapping is refused,
  and it leaves the mappings as it found them.  Its final message reports twice the pages
  of the regions it counted, or 0 pages when doubling the size has wrapped to 0; it is
  right if and only if the kernel refuses none of the first (64 - p) * 32765 calls
  (`ReportedPages`).  `SmallKernels` runs it on two kernels for which it is wrong.
- **The catalogue.** A run for a plugin, under its name with '-' for '_', executes exactly
  the applicable tests (`RunsExactlyTheApplicable`).

## Assumptions

- `unsigned long` and `unsigned long long` have 64 bits, `int` has 32.
- `num_online_cpus` is asked anew at each call and may change in between.
- The kernel's side of the control page is not in the repository.  A fresh page is
  zero.  A kernel request is one atomic step that looks at the counter in memory, then
  either sets the preempt bit or preempts at once.  A store to the counter changes the
  counter alone.  Yielding clears the preempt bit.  In `Interleaving.dfy` the depth stays
  within the bit field.  The page is mapped once for each thread.
- `mmap` without a requested address grants neither an empty mapping, nor address 0, nor
  an address in use.  The page size is a power of two of at most 2^30.
- Doubles are reals; clocks are arbitrary sequences of readings.
- `fscanf` with `%lf` decides on the token it meets; which tokens are numbers is a
  parameter.

The test runner's `return 2` for a missing plugin cannot be reached, since `usage` has
left with status 1 before (tests/runner.c:88-96, 149-150); the model returns 1.  Where the
source calls the execution-time file a CSV file (bin/rtspin.c:382), the model follows the
code, in which only white space separates columns.

## Model

| member | source | states |
|---|---|---|
| MaskText.BitCount | src/migration.c:60 | the closed form for the number of bits is four times the number of digits, and the denoted number fits into it |
| MaskText.FormatOfText | src/migration.c:51-53 | a text is well formed if and only if, counted from its end, every ninth character is a comma, all others are hexadecimal digits, and no group is empty |
| MaskText.DigitsInOrder | src/migration.c:74 | the digits and their values in lower and upper case, and the digits that the printer uses |
| MaskText.DigitCount | src/migration.c:51-60 | a well-formed text of length len has 8*(len/9) + len%9 digits, so len/9 commas, and len%9 is never 0 |
| MaskText.StrToUlOfGroup | src/migration.c:74 | on one group, strtoul base 16 returns its positional value |
| MaskText.StrToUlOfNumeral | src/migration.c:74 | with a sign, a prefix and digits strtoul base 16 returns the value, negated modulo 2^64 after a minus sign, and the largest word when it is too large |
| MaskText.StrToUlSkipsBlanks | src/migration.c:74 | white space in front makes no difference |
| MaskText.ScanMeaning | src/migration.c:66-83 | scanning any well-formed prefix, from any group number on, finds the bits of the number it denotes, shifted by 32 for each group |
| MaskText.ScanDenotes | src/migration.c:51-83 | for every well-formed text the scan finds exactly the bits of the number with commas removed |
| MaskText.PrintedValue | src/migration.c:51-53 | the printer produces well-formed text that denotes the printed set |
| MaskText.PrintScanRoundTrip | src/migration.c:51-83 | scanning a printed set finds exactly its members, and the bit count is 32n+4k, for all n and k |
| MaskText.PrintUndoesScan | src/migration.c:51-83 | every well-formed text in lower case is the print of what the scan finds in it |
| MaskText.TrailingNewlineMisreads | src/migration.c:66-83 | exactly which CPUs the scan finds when a newline follows a well-formed text, before stores beyond the allocated size are dropped |
| FileIO.FillBuffer | src/kernel_iface.c:43-51 | how many bytes arrive and what every read returned: all but the last have delivered something, and a read fails exactly where the schedule says so; only the arrived bytes changed |
| FileIO.ReadFile | src/kernel_iface.c:40-57 | -1 exactly when opening or an issued read fails, in particular with the buffer unchanged for a file that cannot be opened; otherwise the first min(length, maxlen) bytes in order; the rest of the buffer is untouched |
| FileIO.FailureHasCause | src/kernel_iface.c:50-56 | a failure is due to one failing read among at most one for every byte and one more |
| FileIO.ChunkingIsInvisible | src/kernel_iface.c:40-57 | without errors the delivered bytes do not depend on how the file is cut into reads |
| Migration.CpuSet.Add | src/migration.c:78 | a store outside the allocated size is ignored, all other members stay |
| Migration.StoreChunk | src/migration.c:75-80 | the inner loop stores each set bit of the chunk once, in increasing order, and nothing else |
| Migration.StoreGroups | src/migration.c:66-83 | the outer loop parses once for each group at the right offsets, never before the buffer, and collects what the scan finds |
| Migration.ReadMapping | src/migration.c:30-89 | return code, allocated size and set for every file content; -1 without a set when more than 4096 CPUs are online, the file cannot be opened or a read fails, 0 without a set for an empty file |
| Migration.CpuSetToUll | src/migration.c:91-103 | the bits of the mask are the members below 64 |
| Migration.DomainToCpus | src/migration.c:105-147 | fails outside 0 to 64 online CPUs (a negative count converts to a large unsigned one) and when the file cannot be opened or read, otherwise the mask of the parsed set, which for a well-formed file that fits the buffer is its hexadecimal value modulo 2^64; the caller's mask is kept on failure |
| Migration.DomainToFirstCpu | src/migration.c:149-172 | -1 when the file cannot be opened or read, otherwise the least member below the online count, or -1; for a well-formed file the lowest bit of its value if that is online |
| Migration.FirstOnline | src/migration.c:161-168 | least member in range, -1 only if there is none |
| Migration.FileIsParsed | src/migration.c:35-59 | any text without terminator that fits the buffer is parsed whole unless too many CPUs are online or an issued read fails |
| Migration.WholeTextIsParsed | src/migration.c:35-59 | a well-formed text that fits the buffer is parsed whole, for every error-free schedule of reads |
| Migration.CpusOfText | src/migration.c:60-83 | the set of a well-formed text has the bits of the denoted number, all below the bit count |
| Migration.ReadBackWhenRead | src/migration.c:30-89 | a printed mask of up to 4096 CPUs is read back exactly whenever the call returns 0 |
| Migration.ReadBackPrinted | src/migration.c:30-89 | round trip through the file for all masks of up to 4096 CPUs and all error-free schedules of reads |
| Migration.PrintRestoresText | src/migration.c:51-83 | printing the parsed set restores the text |
| Migration.MaskIsPositionalValue | src/migration.c:91-125 | a number is the mask of a well-formed text if and only if it is the hexadecimal value modulo 2^64 |
| Migration.FirstOnlineOfText | src/migration.c:149-172 | the first CPU of a well-formed text is the lowest bit of the denoted number if that is online, otherwise -1 |
| Migration.FirstCpuIsLowestBit | src/migration.c:91-172 | with at most 64 CPUs online the first CPU is the lowest bit of the mask if that is online, otherwise -1 |
| Migration.CpusWithNewline | src/migration.c:59-83 | the set that is delivered when a newline follows a well-formed text, stores beyond the allocated size dropped |
| Migration.NewlineFileIsParsed | src/migration.c:35-59 | a file of a text and a newline is parsed with the newline |
| Migration.NewlineIsHarmlessExactly | src/migration.c:59-83 | the newline leaves the set unchanged if and only if the text meets a condition on its digits |
| Migration.NewlineLosesCpu31 | src/migration.c:59-83 | one text in which the newline makes CPU 31 disappear |
| Migration.LongTextIsCut | src/migration.c:35-59 | a well-formed text that does not fit the buffer is cut to 1152 characters, and what is parsed is never well formed |
| Migration.CutTextLosesLastGroup | src/migration.c:66-83 | one character too many makes all CPUs of the last group disappear |
| Migration.LongTextLosesCpu0 | src/migration.c:35-83 | such a text, in which CPU 0 disappears |
| Placement.RtTask.Init | src/litmus.c:81-107 | numbers zero, class, priority, budget and release policy as documented |
| Placement.MigrateThreadToDomain | src/migration.c:209-228 | no request and -1 when the file cannot be opened or read; otherwise one affinity request for the given thread, or the caller for 0, with the bits of the number the file denotes and their size in whole words |
| Placement.SporadicPartitioned | src/litmus.c:134-168 | which system calls are issued with which arguments on each path: none when the file cannot be opened or read, then the affinity request, then the parameters with the given cost and period and defaults elsewhere |
| Placement.PlacementIsConsistent | src/litmus.c:134-168 | with an unchanged file, whenever the parameters are set: requested affinity is the domain's set, and the CPU parameter is its least online member, or -1 if there is none, if and only if the second reading succeeds or no member is online |
| Placement.FailedSecondReading | src/litmus.c:139-147 | a case in which the parameter is -1 although a member is online |
| Placement.PlacementFollowsPrintedMask | src/litmus.c:134-168 | the same for a printed mask, with the set that was printed |
| NonPreemptive.NpThread.InitKernelIface | src/kernel_iface.c:85-115 | pointer and return code for each way in which opening and mapping can go |
| NonPreemptive.NpThread.EnterNp | src/kernel_iface.c:117-123 | the new state in every situation, wrap-around of the bit field and faults included |
| NonPreemptive.NpThread.ExitNp | src/kernel_iface.c:126-136 | the new state in every situation; a yield only from depth 1 with a request |
| NonPreemptive.NpThread.RequestedToPreempt | src/kernel_iface.c:138-141 | the preempt bit of a mapped page, false without one |
| NonPreemptive.StateOfRun | src/kernel_iface.c:117-136 | after any run that fits the field, the counter is the saturated depth and the bit tells whether the current section saw a request |
| NonPreemptive.CounterIsDepth | src/kernel_iface.c:117-136 | the counter equals the depth throughout a run if and only if the depth always fits the field |
| NonPreemptive.FullCounterWraps | src/kernel_iface.c:120 | a counter that is only incremented counts modulo 2^w, and a full one becomes 0 |
| NonPreemptive.YieldsAreDeferredPreemptions | src/kernel_iface.c:126-136 | a run yields once for every outermost section that is left with a request pending, and never else |
| NonPreemptive.PointerOfRun | src/kernel_iface.c:85-123 | when the pointer is null or MAP_FAILED after a run |
| NonPreemptive.FaultsExactlyAfterFailedMmap | src/kernel_iface.c:26-31 | a run faults if and only if the first mapping fails in mmap and a call follows |
| NonPreemptive.RunFromFirstMapping | src/kernel_iface.c:117-136 | before the page is mapped nothing happens, afterwards the run is one with a mapped page |
| Interleaving.StepKeepsInvariant | src/kernel_iface.c:117-136 | every step of thread, store buffer and kernel keeps the protocol's invariant |
| Interleaving.RunKeepsInvariant | src/kernel_iface.c:117-136 | the invariant holds in every reachable state |
| Interleaving.NoLostPreemption | src/kernel_iface.c:126-136 | in every interleaving: a request is pending at counter 0 only between decrement and yield, outside sections all requests are answered, no yield without a request, and every request of the run is counted |
| Interleaving.PendingIsServedByTheEnd | src/kernel_iface.c:126-136 | a pending request is answered by a yield before the thread is outside its outermost section again |
| Interleaving.ExitTailMakesProgress | src/kernel_iface.c:126-136 | after the decrement to 0 some step is always possible, and all but requests lead to the end of the call |
| Interleaving.BarrierIsNeeded | src/kernel_iface.c:132 | without waiting for the store buffer there is a run in which a request is lost |
| Interleaving.RequestInSection | src/kernel_iface.c:117-123 | in every section of every run: a request preempts at once if and only if the counter in memory is still 0, and then the store of the outermost enter_np has not arrived; otherwise it is deferred |
| Interleaving.EnterHasNoBarrier | src/kernel_iface.c:117-123 | a run in which a thread that has entered a section is preempted at once |
| Interleaving.EnterStepsAreEnter | src/kernel_iface.c:117-123 | the steps of the call can be taken and have the effect of the call, whatever stores are on their way |
| Interleaving.ExitStepsAreExit | src/kernel_iface.c:126-136 | the steps of the call can be taken and have the effect of the call, whatever stores are on their way |
| Interleaving.InterleavingRefinesCalls | src/kernel_iface.c:117-136 | for every possible run, with stores and requests interleaved in any way: between its calls the thread reads the counter, and has the page mapped, as after the calls alone |
| Interleaving.RunAgrees | src/kernel_iface.c:117-136 | inside the calls too: before its store a call is one behind the run of calls, at every other step the counters agree |
| ExecTimes.Stream.SkipToNextLine | bin/rtspin.c:36-41 | ends after the next newline or at the end, and says which |
| ExecTimes.Stream.SkipComments | bin/rtspin.c:43-49 | ends at the first line start that is no comment |
| ExecTimes.Stream.SkipField | bin/rtspin.c:84 | skips white space and one token |
| ExecTimes.CommentsHoldNoData | bin/rtspin.c:43-49 | skipping comments skips no data line |
| ExecTimes.CountJobs | bin/rtspin.c:62-68 | the first pass counts the terminated lines that are no comments, for every file |
| ExecTimes.DataLinesOfText | bin/rtspin.c:36-68 | line by line: a line counts unless it starts with a hash sign, and only if it is terminated |
| ExecTimes.FieldsOfLine | bin/rtspin.c:82-88 | the fields of a line from left to right: white space separates them and belongs to none |
| ExecTimes.FieldInFile | bin/rtspin.c:82-88 | the next field of a line is the next token of the stream, and stays in the line |
| ExecTimes.Stream.ScanNumber | bin/rtspin.c:88 | the number at the start of the next token, and where the stream stands then |
| ExecTimes.SkipColumns | bin/rtspin.c:82-85 | exactly column - 1 tokens are skipped, none for columns below 2 |
| ExecTimes.AtLaterField | bin/rtspin.c:82-85 | skipping j tokens in a line with enough fields leads to the j-th next field of the same line |
| ExecTimes.ReadJob | bin/rtspin.c:80-94 | number, new position and end-of-file flag of one job of the second pass, on every file |
| ExecTimes.RunsOutOfFields | bin/rtspin.c:82-88 | skipping at least as many tokens as a line has leads behind its newline |
| ExecTimes.NumberInLine | bin/rtspin.c:82-88 | a number is read inside a line if and only if the line has one in the wanted column |
| ExecTimes.JobReadsLine | bin/rtspin.c:80-94 | on every file with a data line left: the job reads its number inside that line if and only if the line has one in the wanted column; then it is that number and the stream moves to the next line |
| ExecTimes.OwnLinesExactly | bin/rtspin.c:78-95 | over the whole second pass: every job reads its number inside its own data line if and only if all data lines have one |
| ExecTimes.GetExecTimes | bin/rtspin.c:51-99 | for every file: one job for each data line; one time for every job, the number found where the job starts; the invalid-time exit if and only if every job before has found a number, the end of the file was not met, and this job finds none; the failed assertion if and only if the end was met behind a number with jobs left |
| ExecTimes.StartsAreUnique | bin/rtspin.c:78-95 | the positions at which the jobs start are determined by the file |
| ExecTimes.PassesAgree | bin/rtspin.c:62-97 | if all data lines have a number in the wanted column, the i-th time is the number in column `column` of the i-th data line and the final assertion holds, whatever unterminated line follows |
| ExecTimes.BlankLineBreaksAgreement | bin/rtspin.c:62-92 | a concrete file with an empty line whose jobs are counted but not loaded |
| ExecTimes.LoadedIsNotEnough | bin/rtspin.c:62-97 | a concrete file that is loaded without error, with numbers of the wrong lines |
| ExecTimes.NoBlanksOneField | bin/rtspin.c:82-85 | a line without white space has one field, however many commas it holds |
| ExecTimes.CommasSelectNoColumn | bin/rtspin.c:82-88 | from such a line no column but the first can be read |
| Spin.LoopFor | bin/rtspin.c:113-136 | on the readings: a first pass if and only if the first two are less than the request apart, another one while the time and the last cost stay within it, the emergency exit exactly at the first wall-clock reading past a non-zero emergency time |
| Spin.SpinBound | bin/rtspin.c:113-136 | exec - c_m <= elapsed < exec + c_m - c_(m-1) after a normal exit |
| Spin.PassesBound | bin/rtspin.c:121-125 | with costs of at least lo, at most one pass or m*lo < exec |
| Spin.ProgressEndsLoop | bin/rtspin.c:121-125 | with costs of at least lo > 0 the loop ends |
| Spin.AdvancingClockEnds | bin/rtspin.c:121-125 | a clock that advances by at least lo > 0 from reading to reading ends every loop, as the jobs need it |
| Spin.Job | bin/rtspin.c:157-185 | nothing after the end of the program, otherwise the exact sequence of spins, lock, unlock and sleep with their requests and emergency times: random * (exec - cs), cs and (1 - random) * (exec - cs); the spins take consecutive readings of both clocks |
| Spin.SharesOfBudget | bin/rtspin.c:166-167 | the outer requests divide what the critical section leaves in the proportion random to 1 - random |
| Spin.ChunksMakeTheBudget | bin/rtspin.c:166-178 | the three requests add up to the budget, none is negative if and only if the critical section fits, and otherwise the outer two are not positive |
| Spin.CallBound | bin/rtspin.c:113-136 | every spin takes its request, negative ones counted as 0, up to one pass, and after the emergency exit at most that |
| Spin.JobTimeBound | bin/rtspin.c:157-185 | the CPU time of every job: with a lock within three passes of the larger of budget and critical section, without one within one pass of the budget; the upper bounds hold after emergency exits too |
| Spin.LongCriticalSectionOverruns | bin/rtspin.c:166-178 | a critical section longer than the budget is executed in full between two spins of no pass, with bounds from both sides; beyond one pass of excess the budget is overrun |
| Spin.JobIsDisciplined | bin/rtspin.c:164-182 | one more job keeps the lock discipline and leaves the lock free |
| Spin.LocksAlternate | bin/rtspin.c:173-175 | between two lock calls there is an unlock call and vice versa |
| Spin.NoSleepWithLock | bin/rtspin.c:173-182 | between a lock call and a sleep there is an unlock call, and only a held lock is released |
| Spin.RunJobs | bin/rtspin.c:381-388 | over a whole run every job continues on the clocks where the last one stopped, spends its own budget or exactly after the end of the program nothing, and the lock is never held at the end of a job |
| Spin.PartsInOrder | bin/rtspin.c:381-388 | the log of a run is the events of its jobs, one behind the other, and nothing else |
| TimeSpec.Normalize | bin/uncache.c:112-127 | the two loops end with the stated normal form for all inputs |
| TimeSpec.Normalized | bin/uncache.c:112-127 | the total is kept; the result is the canonical split if and only if nsec is no positive multiple of 10^9 |
| TimeSpec.SleepSplit | src/clocks.c:31-32 | the value lt_sleep computes is the one and only canonical value with the timeout as its total |
| TimeSpec.TimespecSub | bin/uncache.c:129-134 | total difference |
| TimeSpec.TimespecAdd | bin/uncache.c:136-141 | total sum |
| TimeSpec.SubUndoesAdd | bin/uncache.c:129-141 | adding and subtracting gives back every canonical value |
| TimeSpec.AddUndoesSub | bin/uncache.c:129-141 | the total is kept; the fields come back if and only if not (a.nsec = 0 and b.nsec > 0) |
| TimeSpec.WhenCanonical | bin/uncache.c:129-141 | differences are canonical, sums exactly when the nanoseconds do not add up to 10^9 |
| TimeSpec.ToUsIsFloor | bin/uncache.c:143-149 | microseconds are the floor of the total also for the stored 10^9 |
| TimeSpec.ToUsIsCeiling | bin/uncache.c:143-149 | for a negative nanoseconds field they are rounded up, because the division truncates |
| TimeSpec.ElapsedIsExact | bin/uncache.c:205-212 | elapsed microseconds are the floor of the nanosecond difference, in either order |
| MaxAlloc.AddressSpace.Mmap | bin/uncache.c:285 | the kernel's answer to each call: the offered address, refused exactly for size 0, an address that is not positive, or one in use |
| MaxAlloc.MapRound | bin/uncache.c:283-295 | maps exactly the addresses the kernel offers, call by call, until the table is full or up to the first refused call, and makes no call beyond it |
| MaxAlloc.UnmapRound | bin/uncache.c:296-299 | unmaps exactly the regions of the round |
| MaxAlloc.RunIsDetermined | bin/uncache.c:278-303 | the kernel's answers determine the rounds |
| MaxAlloc.RunReachesSizeZero | bin/uncache.c:278-303 | the run gets as far as size 0 if and only if none of the first (64 - p) * 32765 calls is refused |
| MaxAlloc.DoMaxAlloc | bin/uncache.c:259-312 | every round maps what the kernel offers and fills the table, except the last, which ends at the first refused call; the run ends within 65 - p rounds for every kernel, restores the mappings, and logs round after round the mappings and the same unmappings; the message is right if and only if none of the first (64 - p) * 32765 calls is refused |
| MaxAlloc.PagesOfRound | bin/uncache.c:264-302 | regions of round r have 2^r pages |
| MaxAlloc.NeverMoreThanTheTable | bin/uncache.c:264-303 | at every moment between 0 and 32765 regions are live, none at the end |
| MaxAlloc.ReportedPages | bin/uncache.c:302-309 | for every run: the final message reports twice the pages of the counted regions, 0 after a wrap, and is right if and only if the kernel refuses none of the first (64 - p) * 32765 calls |
| MaxAlloc.SmallKernels | bin/uncache.c:259-312 | two runs of the function, on kernels that grant one page or nothing, which report regions of two pages |
| Catalog.CollectPlugins | tests/make_catalog.py:60-66 | all tags except ALL and LITMUS |
| Catalog.TableFor | tests/make_catalog.py:78-88 | exactly the applicable tests in order, and their number |
| Catalog.Selected | tests/make_catalog.py:81-86 | membership and strict order of the selected indices |
| Catalog.WhatTagsMean | tests/make_catalog.py:80-84 | ALL runs for every plugin, LITMUS alone for every one but LINUX, no other tag for a plugin it does not name |
| Catalog.CreateTcTables | tests/make_catalog.py:54-94 | one entry for each test with function and description, one suite for each plugin with its table of applicable tests and its count, under the name with every underscore replaced by a dash and nothing else changed |
| Catalog.RunTests | tests/runner.c:46-57 | runs the listed tests in order and counts those that pass |
| Catalog.CountPassedIsANumberOfTests | tests/runner.c:46-57 | the number that is compared is the number of listed tests that passed |
| Catalog.RunPlugin | tests/runner.c:128-151 | the first suite with the name is run; exit code 0, 3, or 1 for an unknown or missing plugin |
| Catalog.GeneratedIsInBounds | tests/runner.c:52-55 | a generated catalogue never indexes outside the arrays |
| Catalog.WhichTestsRun | tests/runner.c:136-147 | which tests run for any name, dashed names that clash included |
| Catalog.RunsExactlyTheApplicable | tests/make_catalog.py:78-92 | end to end, for a name that is the plugin's with dashes for underscores: exactly the applicable tests, once each, in order, and exit code 0 if and only if all pass |
| Catalog.DashedIsInjective | tests/make_catalog.py:92 | names that are C identifiers keep distinct dashed names |
| Catalog.DashedIsTheOnlyOne | tests/make_catalog.py:92 | the suite name is the one text of the same length with dashes for underscores and no other change |

## Left out

- The lock, job-control and release wrappers in src/syscalls.c and src/litmus.c: single system calls; the locking protocols are in the kernel.
- The programs under tests/ that exercise kernel behaviour, and the parsing of source files by the catalogue generator's regular expression.
- `run_test` in tests/runner.c: forking and waiting; its outcome is a parameter.
- Command lines, usage texts and printed messages.
- `be_migrate_thread_to_cpu`, `release_master`, `read_litmus_stats`, `task_mode`, `str2class` and the lock-name table: settled by one branch or a finite table.
- The values of the constants in litmus/rt_param.h, which is not part of this model: they are constructors of datatypes here.
- `init_kernel_iface` on a thread whose page is mapped already: what the second mapping shows depends on the kernel.
- A counter update that is interrupted between its load and its store: the preempt bit shares a word with the counter, so an update that is not atomic could overwrite a request.
- Overflow of `time_t` and `int64_t` in the time arithmetic, and rounding of doubles.
- `loop_once`, `hammer_*` and `linear_*`: loops that only consume time.
- `debug_delay_loop` and the loop in `main` of bin/rtspin.c that repeats one job until the program ends: both repeat modelled calls.
