/**
 src/migration.c: reading a domain's CPU mask, and the functions that consume it.

 `num_online_cpus` asks the system each time it is called, so every call of it is
 a parameter of its own.  `unsigned long` has 64 bits.
 */
module Migration {
  import opened Bits
  import opened CLib
  import opened MaskText
  import opened FileIO

  const MAX_CPUS := 4096
  const BUF_SIZE := 1153  // 4096/4 digits, 4096/32 for commas, and the terminator

  // ----- Dynamically sized CPU sets, as in <sched.h> -----

  /** `CPU_ALLOC_SIZE`: bytes for `count` CPUs, in whole 64-bit words. */
  function AllocSize(count: nat): (bytes: nat)
    ensures count <= 8 * bytes < count + 64
    ensures bytes % 8 == 0
  {
    (count + 63) / 64 * 8
  }

  class CpuSet {
    const bits: array<bool>

    function Members(): (s: set<nat>)
      reads bits
      ensures forall x: nat :: x in s <==> x < bits.Length && bits[x]
    {
      set x: nat | 0 <= x < bits.Length && bits[x]
    }

    /** `CPU_ALLOC`: the memory is not initialised. */
    constructor (count: nat)
      ensures bits.Length == 8 * AllocSize(count) && fresh(bits)
    {
      bits := new bool[8 * AllocSize(count)];
    }

    /** `CPU_ZERO_S` */
    method Zero(sz: nat)
      requires 8 * sz == bits.Length
      modifies bits
      ensures Members() == {}
    {
      forall x | 0 <= x < 8 * sz {
        bits[x] := false;
      }
    }

    /** `CPU_SET_S`: a CPU outside the given size is ignored. */
    method Add(cpu: nat, sz: nat)
      requires 8 * sz == bits.Length
      modifies bits
      ensures Members() == old(Members()) + if cpu < 8 * sz then {cpu} else {}
    {
      if cpu / 8 < sz {
        bits[cpu] := true;
      }
    }
  }

  /** `CPU_ISSET_S`: false outside the given size, so a null set of size 0 may be queried. */
  predicate IsSet(cpu: nat, sz: nat, cpus: CpuSet?)
    requires 8 * sz == if cpus == null then 0 else cpus.bits.Length
    reads if cpus == null then {} else {cpus.bits}
  {
    cpu / 8 < sz && cpus.bits[cpu]
  }

  // ----- What read_mapping delivers, as a value -----

  /** `strnlen` */
  function StrNLen(s: string): (n: nat)
    ensures n <= |s| && '\0' !in s[..n]
    ensures n < |s| ==> s[n] == '\0'
  {
    if s == [] || s[0] == '\0' then 0 else 1 + StrNLen(s[1..])
  }

  function CString(s: string): string {
    s[..StrNLen(s)]
  }

  /** Either no set, with the code that is returned, or the text that is parsed. */
  datatype Mapping = NoSet(ret: int) | Parsed(text: string)
  {
    function Ret(): int {
      if NoSet? then ret else 0
    }

    /** The CPUs in the set; the empty set when there is none. */
    ghost function Cpus(): (s: set<nat>)
      ensures Parsed? ==> forall x: nat :: x in s <==> x < Capacity() && ScanFinds(text, x)
      ensures NoSet? ==> s == {}
    {
      if NoSet? then {} else set x: nat | x < Capacity() && ScanFinds(text, x)
    }

    /** The number of bits there is room for. */
    function Capacity(): nat {
      if NoSet? then 0 else 8 * AllocSize(BitsInText(|text|))
    }
  }

  function MappingOf(online: CInt, file: File): Mapping {
    if online > MAX_CPUS then NoSet(-1)
    else match Received(file, BUF_SIZE - 1)
      case None => NoSet(-1)
      case Some(s) => if s == [] then NoSet(0) else Parsed(CString(s))
  }

  lemma {:induction false} StrNLenPadded(s: string, zeros: string)
    requires zeros != [] && zeros[0] == '\0'
    ensures StrNLen(s + zeros) == StrNLen(s)
  {
    if s != [] && s[0] != '\0' {
      assert (s + zeros)[1..] == s[1..] + zeros;
      StrNLenPadded(s[1..], zeros);
    }
  }

  /** Reasons for a reading to fail that are known before the first byte arrives. */
  predicate CannotRead(online: CInt, file: File) {
    online > 4096 || file.Unopenable? || file.schedule(0) < 0
  }

  // ----- read_mapping -----

  /** The inner loop: one store for every set bit of the chunk, lowest first. */
  method StoreChunk(cpus: CpuSet, sz: nat, word: nat, i: nat) returns (ghost stores: seq<nat>)
    requires 8 * sz == cpus.bits.Length
    modifies cpus.bits
    ensures forall x: nat :: x in cpus.Members() <==>
              x in old(cpus.Members()) || (x < 8 * sz && BitOfChunk(word, i, x))
    ensures forall x: nat :: x in stores <==> BitOfChunk(word, i, x)
    ensures forall a, b :: 0 <= a < b < |stores| ==> stores[a] < stores[b]
  {
    var chunk := word;
    stores := [];
    while chunk != 0
      invariant forall x: nat :: BitOfChunk(word, i, x) <==> x in stores || BitOfChunk(chunk, i, x)
      invariant forall x: nat :: x in cpus.Members() <==> x in old(cpus.Members()) || (x < 8 * sz && x in stores)
      invariant forall a, x: nat :: 0 <= a < |stores| && BitOfChunk(chunk, i, x) ==> stores[a] < x
      invariant forall a, b :: 0 <= a < b < |stores| ==> stores[a] < stores[b]
      decreases chunk
    {
      var j := FindFirstSet(chunk) - 1;
      var x := i * 32 + j;
      cpus.Add(x, sz);
      ghost var before := chunk;
      chunk := WithoutBit(chunk, j);
      forall y: nat ensures BitOfChunk(chunk, i, y) <==> y != x && BitOfChunk(before, i, y) {
        if y >= 32 * i { BitOfWithoutBit(before, j, y - 32 * i); }
      }
      assert BitOfChunk(before, i, x);
      stores := stores + [x];
    }
    forall x: nat ensures !BitOfChunk(chunk, i, x) {
      NoBits();
    }
  }

  /** How many times the outer loop runs and where it parses, least significant group first. */
  ghost predicate ScansEachGroupOnce(starts: seq<nat>, len: nat) {
    && |starts| == len / 9 + 1
    && forall g :: 0 <= g < |starts| ==> starts[g] == Clamp(len - 8 - 9 * g)
  }

  /** The outer loop, over the text in `buf[..len]`. */
  method StoreGroups(buf: array<char>, len: int, cpus: CpuSet, sz: nat) returns (ghost starts: seq<nat>)
    requires 0 <= len <= buf.Length
    requires 8 * sz == cpus.bits.Length && cpus.Members() == {}
    modifies cpus.bits
    ensures forall x: nat :: x in cpus.Members() <==> x < 8 * sz && ScanFinds(buf[..len], x)
    ensures ScansEachGroupOnce(starts, len)
  {
    hide StrToUl, BitOfChunk, Scanned;
    ghost var text := buf[..len];
    starts := [];
    var chunkStr: int := len - 8;
    var i := 0;
    var more := true;
    while more
      invariant buf[..len] == text
      invariant more == (chunkStr >= -8)
      invariant if more then chunkStr == len - 8 - 9 * i else chunkStr >= -17 && i == len / 9 + 1
      invariant |starts| == i && forall g :: 0 <= g < i ==> starts[g] == Clamp(len - 8 - 9 * g)
      invariant forall x: nat :: x < 8 * sz ==>
        (ScanFinds(text, x) <==> x in cpus.Members() || (more && Scanned(text, chunkStr, i, x)))
      decreases chunkStr + 9
    {
      ghost var p, was := chunkStr, cpus.Members();
      if chunkStr < 0 {
        chunkStr := 0;
      }
      starts := starts + [chunkStr];
      var chunk := StrToUl(buf[chunkStr..len]);
      assert buf[chunkStr..len] == text[Clamp(p)..];
      ghost var _ := StoreChunk(cpus, sz, chunk, i);
      chunkStr := chunkStr - 9;
      i := i + 1;
      more := chunkStr >= -8;
      forall x: nat | x < 8 * sz
        ensures ScanFinds(text, x) <==> x in cpus.Members() || (more && Scanned(text, chunkStr, i, x))
      {
        ScanStep(text, p, i - 1, x);
        assert x in cpus.Members() <==> x in was || BitOfChunk(chunk, i - 1, x);
      }
    }
  }

  method ReadMapping(online: CInt, file: File)
    returns (ret: int, cpus: CpuSet?, sz: nat, ghost starts: seq<nat>)
    ensures var m := MappingOf(online, file);
      && ret == m.Ret()
      && 8 * sz == m.Capacity()
      && (m.NoSet? ==> cpus == null)
      && (m.Parsed? ==>
            && cpus != null && fresh(cpus) && fresh(cpus.bits)
            && cpus.bits.Length == 8 * sz && cpus.Members() == m.Cpus()
            && ScansEachGroupOnce(starts, |m.text|))
    ensures CannotRead(online, file) ==> ret == -1
    ensures ret == -1 ==> cpus == null && sz == 0
    ensures online <= 4096 && file.Readable? && ErrorFree(file.schedule) ==>
              ret == 0 && (cpus == null <==> file.content == "") && (file.content == "" ==> sz == 0)
  {
    hide StrNLen, ScanFinds, SomeReadFails, AllocSize, ReadsInOrder, ErrorFree, ScansEachGroupOnce;
    ret, cpus, sz, starts := -1, null, 0, [];
    var buf := new char[BUF_SIZE](_ => '\0');

    if online > MAX_CPUS {
      return;
    }
    ghost var returned;
    ret, returned := ReadFile(file, buf, BUF_SIZE - 1);
    if ret <= 0 {
      return;
    }

    ghost var s := Received(file, BUF_SIZE - 1).value;
    StrNLenPadded(s, buf[ret..]);
    assert buf[..] == s + buf[ret..];
    var len := StrNLen(buf[..]);
    assert buf[..len] == CString(s);
    var nbits := 32 * (len / 9) + 4 * (len % 9);

    var memory := new CpuSet(nbits);
    cpus, sz := memory, AllocSize(nbits);
    memory.Zero(sz);
    starts := StoreGroups(buf, len, memory, sz);
    assert memory.Members() == Parsed(CString(s)).Cpus();
    ret := 0;
  }

  // ----- Masks and first CPUs -----

  /** The number whose bits are the members below 64. */
  ghost predicate IsMaskOf(mask: nat, s: set<nat>) {
    forall x: nat :: Bit(mask, x) <==> x < 64 && x in s
  }

  /** The least member of `s` that is at least `i` and below `online`, or -1. */
  ghost function FirstOnline(s: set<nat>, i: nat, online: CInt): (r: int)
    ensures r == -1 ==> forall x :: x in s && i <= x ==> x >= online
    ensures r != -1 ==> r in s && i <= r < online && forall x :: x in s && i <= x ==> r <= x
    decreases online - i
  {
    if i >= online then -1 else if i in s then i else FirstOnline(s, i + 1, online)
  }

  // ----- What a well-formed file means -----

  lemma {:induction false} NoTerminatorInside(text: string)
    requires WellFormed(text)
    ensures '\0' !in text
    decreases |text|
  {
    if |text| > 8 {
      NoTerminatorInside(text[..|text| - 9]);
      assert text == text[..|text| - 9] + [','] + text[|text| - 8..];
    }
  }

  lemma {:induction false} StrNLenWhole(s: string)
    requires '\0' !in s
    ensures StrNLen(s) == |s|
  {
    if s != [] {
      StrNLenWhole(s[1..]);
    }
  }

  /** Text that fits the buffer is parsed as it is, unless it cannot be read. */
  lemma FileIsParsed(content: string, schedule: nat -> int, online: CInt)
    requires content != [] && '\0' !in content && |content| < BUF_SIZE
    ensures MappingOf(online, Readable(content, schedule)) ==
            if online > MAX_CPUS || SomeReadFails(content, schedule, 0, 0, BUF_SIZE - 1) then NoSet(-1)
            else Parsed(content)
  {
    hide SomeReadFails;
    assert content[..|content|] == content;
    StrNLenWhole(content);
  }

  /** So a well-formed text that was read is the text that was parsed. */
  lemma ReadTextIsParsed(text: string, schedule: nat -> int, online: CInt)
    requires WellFormed(text) && |text| < BUF_SIZE
    requires MappingOf(online, Readable(text, schedule)).Ret() == 0
    ensures MappingOf(online, Readable(text, schedule)) == Parsed(text)
  {
    hide SomeReadFails;
    NoTerminatorInside(text);
    FileIsParsed(text, schedule, online);
  }

  /** Without read errors the text of a mask that fits the buffer is parsed. */
  lemma WholeTextIsParsed(text: string, schedule: nat -> int, online: CInt)
    requires online <= MAX_CPUS && ErrorFree(schedule)
    requires WellFormed(text) && |text| < BUF_SIZE
    ensures MappingOf(online, Readable(text, schedule)) == Parsed(text)
  {
    hide SomeReadFails;
    ChunkingIsInvisible(text, schedule, schedule, BUF_SIZE - 1);
    NoTerminatorInside(text);
    FileIsParsed(text, schedule, online);
  }

  /** For a well-formed text the parsed set has the bits of the denoted number; no store falls outside. */
  lemma CpusOfText(text: string, x: nat)
    requires WellFormed(text)
    ensures x in Parsed(text).Cpus() <==> Bit(Denoted(text), x)
    ensures x in Parsed(text).Cpus() ==> x < BitsInText(|text|)
  {
    ScanDenotes(text, x);
    BitCount(text);
    if x >= BitsInText(|text|) {
      NoHighBit(Denoted(text), BitsInText(|text|), x);
    }
  }

  /** A printed set is read back exactly whenever the file was read at all. */
  lemma ReadBackWhenRead(s: set<nat>, n: nat, k: nat, schedule: nat -> int, online: CInt)
    requires 1 <= k <= 8 && 32 * n + 4 * k <= MAX_CPUS
    requires forall x :: x in s ==> x < 32 * n + 4 * k
    requires MappingOf(online, Readable(PrintMask(s, n, k), schedule)).Ret() == 0
    ensures var m := MappingOf(online, Readable(PrintMask(s, n, k), schedule));
      m.Parsed? && m.Cpus() == s && BitsInText(|m.text|) == 32 * n + 4 * k
  {
    hide PrintMask, WellFormed, SomeReadFails, ScanFinds, Bit, Denoted;
    var t := PrintMask(s, n, k);
    PrintedShape(s, n, k);
    ReadTextIsParsed(t, schedule, online);
    PrintScanRoundTrip(s, n, k, 0);
    forall x: nat ensures x in s <==> x in Parsed(t).Cpus() {
      PrintScanRoundTrip(s, n, k, x);
      CpusOfText(t, x);
    }
  }

  /**
   Round trip through the file: a set printed with `n` groups of eight digits after
   a group of `k` digits is read back exactly, for all masks of up to 4096 CPUs and
   for all ways in which the kernel may cut the file into reads.
   */
  lemma ReadBackPrinted(s: set<nat>, n: nat, k: nat, schedule: nat -> int, online: CInt)
    requires 1 <= k <= 8 && 32 * n + 4 * k <= MAX_CPUS
    requires forall x :: x in s ==> x < 32 * n + 4 * k
    requires online <= MAX_CPUS && ErrorFree(schedule)
    ensures var m := MappingOf(online, Readable(PrintMask(s, n, k), schedule));
      m.Parsed? && m.Cpus() == s && BitsInText(|m.text|) == 32 * n + 4 * k
  {
    hide PrintMask, WellFormed, BitsInText;
    PrintedShape(s, n, k);
    WholeTextIsParsed(PrintMask(s, n, k), schedule, online);
    ReadBackWhenRead(s, n, k, schedule, online);
  }

  /** The other way round: printing the set that was parsed restores every well-formed text in lower case. */
  lemma PrintRestoresText(text: string)
    requires WellFormed(text) && LowerCase(text)
    ensures PrintMask(Parsed(text).Cpus(), |text| / 9, |text| % 9) == text
  {
    hide ScanFinds, WellFormed, PrintMask, Bit, Denoted;
    var s := Parsed(text).Cpus();
    forall x: nat ensures x in s <==> ScanFinds(text, x) {
      CpusOfText(text, x);
      ScanDenotes(text, x);
    }
    PrintUndoesScan(text, s);
  }

  /** The 64-bit mask is the hexadecimal value of the text with commas removed, modulo 2^64. */
  lemma MaskIsPositionalValue(text: string, mask: nat)
    requires WellFormed(text)
    ensures IsMaskOf(mask, Parsed(text).Cpus()) <==> mask == Denoted(text) % 0x1_0000_0000_0000_0000
  {
    WordSizes();
    var v := Denoted(text) % Pow2(64);
    forall x: nat ensures Bit(v, x) <==> x < 64 && x in Parsed(text).Cpus() {
      BitOfMod(Denoted(text), 64, x);
      CpusOfText(text, x);
    }
    if IsMaskOf(mask, Parsed(text).Cpus()) {
      BitsDetermine(mask, v);
    }
  }

  /** The first CPU is the lowest bit of the denoted number, if it is online. */
  lemma FirstOnlineOfText(text: string, online: CInt)
    requires WellFormed(text)
    ensures var low := FindFirstSet(Denoted(text)) - 1;
      FirstOnline(Parsed(text).Cpus(), 0, online) == if 0 <= low < online then low else -1
  {
    hide WellFormed, Denoted;
    var s := Parsed(text).Cpus();
    var f, low := FirstOnline(s, 0, online), FindFirstSet(Denoted(text)) - 1;
    if f != -1 { CpusOfText(text, f); }
    if low >= 0 { CpusOfText(text, low); }
  }

  /** `domain_to_first_cpu` and `domain_to_cpus` agree: the lowest bit of the mask, if it is online. */
  lemma FirstCpuIsLowestBit(s: set<nat>, mask: nat, online: CInt)
    requires online <= 64 && IsMaskOf(mask, s)
    ensures FirstOnline(s, 0, online) ==
            if mask != 0 && FindFirstSet(mask) - 1 < online then FindFirstSet(mask) - 1 else -1
  {
    var f, low := FirstOnline(s, 0, online), FindFirstSet(mask) - 1;
    if f != -1 {
      assert Bit(mask, f);
    }
    if mask != 0 {
      assert Bit(mask, low);
      assert low in s;
    }
  }

  // ----- The consumers -----

  /** `cpusettoull` */
  method CpuSetToUll(cpus: CpuSet?, sz: nat) returns (mask: nat)
    requires 8 * sz == if cpus == null then 0 else cpus.bits.Length
    ensures forall x: nat :: Bit(mask, x) <==> x < 64 && IsSet(x, sz, cpus)
  {
    mask := 0;
    NoBits();
    for i := 0 to 64
      invariant forall x: nat :: Bit(mask, x) <==> x < i && IsSet(x, sz, cpus)
    {
      if IsSet(i, sz, cpus) {
        forall x: nat ensures Bit(WithBit(mask, i), x) <==> x == i || Bit(mask, x) {
          BitOfWithBit(mask, i, x);
        }
        mask := WithBit(mask, i);
      }
    }
  }

  /** An `int` that is compared with a `size_t` is converted first. */
  function AsSizeT(n: CInt): int {
    if n < 0 then n + ULONG_MAX + 1 else n
  }

  /**
   `domain_to_cpus`, and `cpu_to_domains`, which differs from it in the file that is
   read.  The caller's mask is left alone unless the call succeeds.
   */
  method DomainToCpus(online: CInt, onlineInRead: CInt, file: File, maskBefore: nat) returns (ret: int, mask: nat)
    ensures ret == if online < 0 || online > 64 then -1 else MappingOf(onlineInRead, file).Ret()
    ensures ret == 0 ==> IsMaskOf(mask, MappingOf(onlineInRead, file).Cpus())
    ensures ret != 0 ==> mask == maskBefore
    ensures ret == 0 && file.Readable? && WellFormed(file.content) && |file.content| < BUF_SIZE ==>
              mask == Denoted(file.content) % 0x1_0000_0000_0000_0000
    ensures CannotRead(onlineInRead, file) ==> ret == -1 && mask == maskBefore
  {
    hide WellFormed, Denoted, Bit, SomeReadFails;
    mask := maskBefore;
    if AsSizeT(online) > 64 {
      return -1, mask;
    }
    var cpus, sz;
    ghost var starts;
    ret, cpus, sz, starts := ReadMapping(onlineInRead, file);
    if ret == 0 {
      mask := CpuSetToUll(cpus, sz);
      if file.Readable? && WellFormed(file.content) && |file.content| < BUF_SIZE {
        ReadTextIsParsed(file.content, file.schedule, onlineInRead);
        MaskIsPositionalValue(file.content, mask);
      }
    }
  }

  method DomainToFirstCpu(onlineInRead: CInt, online: CInt, file: File) returns (first: int)
    ensures var m := MappingOf(onlineInRead, file);
      first == if m.Ret() != 0 then m.Ret() else FirstOnline(m.Cpus(), 0, online)
    ensures file.Readable? && WellFormed(file.content) && |file.content| < BUF_SIZE
            && MappingOf(onlineInRead, file).Ret() == 0 ==>
              var low := FindFirstSet(Denoted(file.content)) - 1;
              first == if 0 <= low < online then low else -1
    ensures CannotRead(onlineInRead, file) ==> first == -1
  {
    hide WellFormed, Denoted, SomeReadFails, FindFirstSet;
    if file.Readable? && WellFormed(file.content) && |file.content| < BUF_SIZE
       && MappingOf(onlineInRead, file).Ret() == 0 {
      ReadTextIsParsed(file.content, file.schedule, onlineInRead);
      FirstOnlineOfText(file.content, online);
    }
    var cpus, sz;
    ghost var starts;
    first, cpus, sz, starts := ReadMapping(onlineInRead, file);
    if first != 0 {
      return;
    }
    first := -1;
    var i := 0;
    ghost var s := MappingOf(onlineInRead, file).Cpus();
    while i < online
      invariant 0 <= i && FirstOnline(s, 0, online) == FirstOnline(s, i, online)
      invariant first == -1
    {
      if IsSet(i, sz, cpus) {
        first := i;
        break;
      }
      i := i + 1;
    }
  }

  // ----- Outside the format: a trailing newline -----

  lemma BitsAfterNewline(n: nat, k: nat)
    requires 1 <= k <= 8
    ensures BitsInText(9 * n + k) == 32 * n + 4 * k
    ensures BitsInText(9 * n + k + 1) == 32 * n + 4 * (if k < 8 then k + 1 else k)
  {
    LengthSplit(n, k);
    if k < 8 {
      LengthSplit(n, k + 1);
    } else {
      LengthSplit(n + 1, 0);
    }
  }

  lemma RoomForGroups(g: nat)
    ensures 8 * AllocSize(32 * g) == 32 * g + if g % 2 == 0 then 0 else 32
  {
    var h := g / 2;
    assert g == 2 * h + g % 2;
    if g % 2 == 0 {
      assert (64 * h + 63) / 64 == h;
    } else {
      assert (64 * h + 95) / 64 == h + 1;
    }
  }

  /** Room for the text with a newline: all its CPUs, and 32 more if and only if the number of groups is odd. */
  lemma NewlineCapacity(text: string)
    requires WellFormed(text)
    ensures BitsInText(|text|) <= Parsed(text + "\n").Capacity()
    ensures |text| % 9 == 8 ==>
      && BitsInText(|text|) == 32 * (|text| / 9 + 1)
      && Parsed(text + "\n").Capacity() == BitsInText(|text|) + if |text| / 9 % 2 == 0 then 32 else 0
  {
    hide WellFormed, AllocSize;
    DigitCount(text);
    var n, k := |text| / 9, |text| % 9;
    BitsAfterNewline(n, k);
    RoomForGroups(n + 1);
  }

  /** The set that `read_mapping` delivers when a newline follows a well-formed text. */
  lemma CpusWithNewline(text: string, x: nat)
    requires WellFormed(text)
    ensures x in Parsed(text + "\n").Cpus() <==>
      || (Bit(Denoted(text), x) && x % 32 < 28)
      || (ReadTwice(text, |text|, 0, x) && x < Parsed(text + "\n").Capacity())
  {
    hide Bit, Denoted, ReadTwice, WellFormed, ScanFinds;
    TrailingNewlineMisreads(text, x);
    NewlineCapacity(text);
    if Bit(Denoted(text), x) { BitsOfText(text, x); }
  }

  /** A file that holds a text and a newline is parsed with the newline. */
  lemma NewlineFileIsParsed(text: string, schedule: nat -> int, online: CInt)
    requires WellFormed(text) && |text| + 1 < BUF_SIZE
    requires MappingOf(online, Readable(text + "\n", schedule)).Ret() == 0
    ensures MappingOf(online, Readable(text + "\n", schedule)) == Parsed(text + "\n")
  {
    hide SomeReadFails;
    NoTerminatorInside(text);
    FileIsParsed(text + "\n", schedule, online);
  }

  /** What a caller can see in the text: nothing for the scan to miss, and nothing to find twice where there is room. */
  predicate NewlineHarmless(text: string) {
    && TopDigitsZero(text)
    && (|text| % 9 == 8 && |text| / 9 % 2 == 0 ==> AllZeros(text[..8]))
  }

  lemma ReadTwiceIsBeyond(text: string, x: nat)
    requires WellFormed(text) && ReadTwice(text, |text|, 0, x)
    ensures |text| % 9 == 8 && AllHex(text[..8]) && HexValue(text[..8]) != 0
    ensures x >= BitsInText(|text|)
  {
    NewlineCapacity(text);
    NoBits();
  }

  lemma {:induction false} FirstGroupIsHex(text: string)
    requires WellFormed(text) && |text| % 9 == 8
    ensures AllHex(text[..8])
    decreases |text|
  {
    if |text| > 8 {
      NineMore(|text|);
      FirstGroupIsHex(text[..|text| - 9]);
      assert text[..|text| - 9][..8] == text[..8];
    } else {
      assert text[..8] == text;
    }
  }

  lemma InventedCpu(text: string) returns (x: nat)
    requires WellFormed(text) && |text| % 9 == 8 && |text| / 9 % 2 == 0 && !AllZeros(text[..8])
    ensures ReadTwice(text, |text|, 0, x)
    ensures BitsInText(|text|) <= x < Parsed(text + "\n").Capacity()
  {
    FirstGroupIsHex(text);
    ZeroNumeral(text[..8]);
    GroupFits(text[..8]);
    var v := HexValue(text[..8]);
    var y := FindFirstSet(v) - 1;
    if y >= 32 { NoHighBit(v, 32, y); }
    x := 32 * (|text| / 9 + 1) + y;
    NewlineCapacity(text);
  }

  /** A CPU that is missed or invented. */
  lemma NewlineChanges(text: string) returns (x: nat)
    requires WellFormed(text) && !NewlineHarmless(text)
    ensures x in Parsed(text + "\n").Cpus() <==> x !in Parsed(text).Cpus()
  {
    if !TopDigitsZero(text) {
      x := TopDigitsNonZero(text);
      CpusWithNewline(text, x);
      CpusOfText(text, x);
      if ReadTwice(text, |text|, 0, x) { ReadTwiceIsBeyond(text, x); }
    } else {
      x := InventedCpu(text);
      CpusWithNewline(text, x);
      CpusOfText(text, x);
    }
  }

  lemma NewlineKeeps(text: string, x: nat)
    requires WellFormed(text) && NewlineHarmless(text)
    ensures x in Parsed(text + "\n").Cpus() <==> x in Parsed(text).Cpus()
  {
    hide Bit, Denoted, WellFormed, ReadTwice, TopDigitsZero, HexValue, AllZeros;
    CpusWithNewline(text, x);
    CpusOfText(text, x);
    if Bit(Denoted(text), x) { TopDigitsZeroBits(text, x); }
    if ReadTwice(text, |text|, 0, x) {
      ReadTwiceIsBeyond(text, x);
      NewlineCapacity(text);
      ZeroNumeral(text[..8]);
    }
  }

  /** A newline does no harm if and only if the text meets that condition. */
  lemma NewlineIsHarmlessExactly(text: string)
    requires WellFormed(text)
    ensures Parsed(text + "\n").Cpus() == Parsed(text).Cpus() <==> NewlineHarmless(text)
  {
    var with, without := Parsed(text + "\n").Cpus(), Parsed(text).Cpus();
    if NewlineHarmless(text) {
      forall x: nat ensures x in with <==> x in without {
        NewlineKeeps(text, x);
      }
    } else {
      var x := NewlineChanges(text);
    }
  }

  /** One text that is misread: CPU 31 is lost. */
  lemma NewlineLosesCpu31()
    ensures WellFormed("1,80000000")
    ensures 31 in Parsed("1,80000000").Cpus() && 31 !in Parsed("1,80000000\n").Cpus()
  {
    var t, g := "1,80000000", "80000000";
    assert t[|t| - 8..] == g && t[..|t| - 9] == "1";
    assert WellFormed(t);
    assert t + "\n" == "1,80000000\n";
    assert Bit(HexDigit('8'), 3);
    TopDigitBits(g, 31);
    DenotedBit(t, 31);
    CpusOfText(t, 31);
    CpusWithNewline(t, 31);
  }

  // ----- Outside the buffer: a text that is too long -----

  /**
   The code tests how many CPUs are online, not how long the text is.  A text that does
   not fit is cut, and what is left is never well formed.
   */
  lemma LongTextIsCut(text: string, schedule: nat -> int, online: CInt)
    requires WellFormed(text) && |text| >= BUF_SIZE
    requires online <= MAX_CPUS && !SomeReadFails(text, schedule, 0, 0, BUF_SIZE - 1)
    ensures MappingOf(online, Readable(text, schedule)) == Parsed(text[..BUF_SIZE - 1])
    ensures !WellFormed(text[..BUF_SIZE - 1])
  {
    hide SomeReadFails, StrNLen;
    var cut := text[..BUF_SIZE - 1];
    NoTerminatorInside(text);
    StrNLenWhole(cut);
    assert cut[..|cut|] == cut;
    if WellFormed(cut) {
      DigitCount(cut);
    }
  }

  lemma {:induction false} HigherGroups(t: string, p: int, i: nat, x: nat)
    requires p <= |t| && Scanned(t, p, i, x)
    ensures x >= 32 * i
    decreases p + 9
  {
    hide StrToUl, Bit;
    if !BitOfChunk(StrToUl(t[Clamp(p)..]), i, x) {
      HigherGroups(t, p - 9, i + 1, x);
    }
  }

  lemma CommaIsNoNumber(s: string)
    requires s != [] && s[0] == ','
    ensures StrToUl(s) == 0
  {
    assert HexRun(s) == [];
  }

  /** One character too many: the first parse meets a comma, and the last group is lost. */
  lemma CutTextLosesLastGroup(text: string, x: nat)
    requires WellFormed(text) && |text| == BUF_SIZE && x < 32
    ensures x !in Parsed(text[..BUF_SIZE - 1]).Cpus()
  {
    hide StrToUl, Bit, StrNLen;
    var cut := text[..BUF_SIZE - 1];
    assert cut[|cut| - 8..][0] == ',';
    CommaIsNoNumber(cut[|cut| - 8..]);
    NoBits();
    if ScanFinds(cut, x) {
      ScanStep(cut, |cut| - 8, 0, x);
      HigherGroups(cut, |cut| - 17, 1, x);
    }
  }

  /** Such a text: CPU 0 as one digit and 128 groups of eight. */
  lemma LongTextLosesCpu0()
    ensures var text := PrintMask({0}, 128, 1);
      && WellFormed(text) && |text| == BUF_SIZE && Bit(Denoted(text), 0)
      && 0 !in Parsed(text[..BUF_SIZE - 1]).Cpus()
  {
    hide PrintMask, WellFormed, Bit, Denoted, ScanFinds;
    PrintedShape({0}, 128, 1);
    PrintedValue({0}, 128, 1, 0);
    CutTextLosesLastGroup(PrintMask({0}, 128, 1), 0);
  }
}
