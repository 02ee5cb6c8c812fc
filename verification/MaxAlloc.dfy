/**
 `do_max_alloc` in bin/uncache.c: map as many regions as the kernel grants, unmap
 them all, double the region size and start again, until a mapping fails.
 */
module MaxAlloc {
  import opened Bits

  const MAX_MMAPS := 32765
  const WORD := 0x1_0000_0000_0000_0000  // uint64_t arithmetic is modulo this
  const MAP_FAILED := -1

  datatype Event = Mapped(addr: nat, size: nat) | Unmapped(addr: nat, size: nat)

  /** A mapping of this size at the offered address is refused. */
  predicate Refuses(offered: int, size: nat, live: map<nat, nat>) {
    size == 0 || offered <= 0 || offered in live
  }

  /**
   The process's mappings.  Which address the kernel offers for the next mapping, if
   any, is arbitrary; it grants neither an empty mapping, nor address 0, nor an
   address that is in use.
   */
  class AddressSpace {
    const offer: nat -> int
    var calls: nat
    var live: map<nat, nat>
    var log: seq<Event>

    constructor (offer: nat -> int, live: map<nat, nat>)
      ensures this.offer == offer && this.live == live && calls == 0 && log == []
    {
      this.offer, this.live := offer, live;
      calls, log := 0, [];
    }

    method Mmap(size: nat) returns (addr: int)
      modifies this
      ensures calls == old(calls) + 1
      ensures addr == if Refuses(offer(old(calls)), size, old(live)) then MAP_FAILED else offer(old(calls))
      ensures addr == MAP_FAILED ==> live == old(live) && log == old(log)
      ensures addr != MAP_FAILED ==>
                && 0 < addr
                && live == old(live)[addr := size]
                && log == old(log) + [Mapped(addr, size)]
    {
      addr := offer(calls);
      calls := calls + 1;
      if Refuses(addr, size, live) {
        return MAP_FAILED;
      }
      live := live[addr := size];
      log := log + [Mapped(addr, size)];
    }

    /** Unmapping a range that is not mapped this way leaves the mappings alone. */
    method Munmap(addr: nat, size: nat)
      modifies this
      ensures calls == old(calls) && log == old(log) + [Unmapped(addr, size)]
      ensures live == if addr in old(live) && old(live)[addr] == size then old(live) - {addr} else old(live)
    {
      if addr in live && live[addr] == size {
        live := live - {addr};
      }
      log := log + [Unmapped(addr, size)];
    }
  }

  function Maps(addrs: seq<nat>, size: nat): (r: seq<Event>)
    ensures |r| == |addrs|
  {
    seq(|addrs|, i requires 0 <= i < |addrs| => Mapped(addrs[i], size))
  }

  function Unmaps(addrs: seq<nat>, size: nat): (r: seq<Event>)
    ensures |r| == |addrs|
  {
    seq(|addrs|, i requires 0 <= i < |addrs| => Unmapped(addrs[i], size))
  }

  /** `live` with the regions at `addrs` added. */
  function WithRegions(live: map<nat, nat>, addrs: seq<nat>, size: nat): map<nat, nat>
    decreases addrs
  {
    if addrs == [] then live else WithRegions(live[addrs[0] := size], addrs[1..], size)
  }

  ghost predicate Distinct(addrs: seq<nat>, live: map<nat, nat>) {
    && (forall i, j :: 0 <= i < j < |addrs| ==> addrs[i] != addrs[j])
    && (forall i :: 0 <= i < |addrs| ==> addrs[i] > 0 && addrs[i] !in live)
  }

  lemma {:induction false} RegionsAppend(live: map<nat, nat>, addrs: seq<nat>, data: nat, size: nat)
    ensures WithRegions(live, addrs + [data], size) == WithRegions(live, addrs, size)[data := size]
    decreases |addrs|
  {
    if addrs == [] {
      assert ([] + [data])[1..] == [];
    } else {
      assert (addrs + [data])[1..] == addrs[1..] + [data];
      RegionsAppend(live[addrs[0] := size], addrs[1..], data, size);
    }
  }

  lemma {:induction false} RegionsMember(live: map<nat, nat>, addrs: seq<nat>, size: nat, a: nat)
    ensures a in WithRegions(live, addrs, size) <==> a in live || a in addrs
    decreases |addrs|
  {
    if addrs != [] {
      RegionsMember(live[addrs[0] := size], addrs[1..], size, a);
      assert addrs == [addrs[0]] + addrs[1..];
    }
  }

  lemma {:induction false} RegionsRemove(live: map<nat, nat>, rest: seq<nat>, size: nat, a: nat)
    requires a !in live && a !in rest
    ensures var now := WithRegions(live[a := size], rest, size);
      a in now && now[a] == size && now - {a} == WithRegions(live, rest, size)
    decreases |rest|
  {
    if rest == [] {
      assert live[a := size] - {a} == live;
    } else {
      assert a != rest[0];
      assert live[a := size][rest[0] := size] == live[rest[0] := size][a := size];
      RegionsRemove(live[rest[0] := size], rest[1..], size, a);
    }
  }

  lemma MapOneMore(live: map<nat, nat>, addrs: seq<nat>, data: nat, size: nat)
    requires Distinct(addrs, live)
    requires data > 0 && data !in WithRegions(live, addrs, size)
    ensures Distinct(addrs + [data], live)
    ensures WithRegions(live, addrs + [data], size) == WithRegions(live, addrs, size)[data := size]
    ensures Maps(addrs + [data], size) == Maps(addrs, size) + [Mapped(data, size)]
  {
    RegionsMember(live, addrs, size, data);
    RegionsAppend(live, addrs, data, size);
  }

  lemma UnmapOneMore(live: map<nat, nat>, addrs: seq<nat>, i: nat, size: nat)
    requires Distinct(addrs, live) && i < |addrs|
    ensures addrs[i] > 0
    ensures var now := WithRegions(live, addrs[i..], size);
      addrs[i] in now && now[addrs[i]] == size && now - {addrs[i]} == WithRegions(live, addrs[i + 1..], size)
    ensures Unmaps(addrs[..i + 1], size) == Unmaps(addrs[..i], size) + [Unmapped(addrs[i], size)]
  {
    assert addrs[i..][1..] == addrs[i + 1..];
    RegionsRemove(live, addrs[i + 1..], size, addrs[i]);
  }

  ghost predicate AllDistinct(rounds: seq<seq<nat>>, live: map<nat, nat>) {
    forall r :: 0 <= r < |rounds| ==> Distinct(rounds[r], live)
  }

  ghost predicate AllFull(rounds: seq<seq<nat>>) {
    forall r :: 0 <= r < |rounds| ==> |rounds[r]| == MAX_MMAPS
  }

  // ----- What the kernel's answers make of a round -----

  /** The address that is offered to call `i` of a round whose first call has number `start`. */
  function Offer(offer: nat -> int, start: nat, i: nat): int {
    offer(start + i)
  }

  /** Call `i` of the round is granted, all calls before it having been granted. */
  ghost predicate Granted(offer: nat -> int, live: map<nat, nat>, start: nat, i: nat, size: nat) {
    && !Refuses(Offer(offer, start, i), size, live)
    && forall j: nat :: j < i ==> Offer(offer, start, j) != Offer(offer, start, i)
  }

  ghost predicate Answers(addrs: seq<nat>, offer: nat -> int, live: map<nat, nat>, start: nat, size: nat) {
    forall i :: 0 <= i < |addrs| ==> addrs[i] == Offer(offer, start, i) && Granted(offer, live, start, i, size)
  }

  /** The regions of a round: what the kernel offers, until the table is full or up to the first refused call. */
  ghost predicate RoundOf(addrs: seq<nat>, offer: nat -> int, live: map<nat, nat>, start: nat, size: nat) {
    && |addrs| <= MAX_MMAPS
    && Answers(addrs, offer, live, start, size)
    && (|addrs| < MAX_MMAPS ==> !Granted(offer, live, start, |addrs|, size))
  }

  lemma GrantedMeans(live: map<nat, nat>, addrs: seq<nat>, offer: nat -> int, start: nat, size: nat)
    requires Answers(addrs, offer, live, start, size)
    ensures Granted(offer, live, start, |addrs|, size) <==>
            !Refuses(Offer(offer, start, |addrs|), size, WithRegions(live, addrs, size))
  {
    hide WithRegions;
    var data := Offer(offer, start, |addrs|);
    if data > 0 {
      RegionsMember(live, addrs, size, data);
      assert forall i :: 0 <= i < |addrs| ==> addrs[i] in addrs;
    }
  }

  lemma AnswerOneMore(addrs: seq<nat>, offer: nat -> int, live: map<nat, nat>, start: nat, size: nat)
    requires Answers(addrs, offer, live, start, size) && Granted(offer, live, start, |addrs|, size)
    ensures Answers(addrs + [Offer(offer, start, |addrs|)], offer, live, start, size)
  {
    hide Granted;
  }

  /** The regions `addrs` have been mapped in the round that began with `live0` and `log0`. */
  ghost predicate Underway(addrs: seq<nat>, offer: nat -> int, live0: map<nat, nat>, log0: seq<Event>, start: nat,
                           size: nat, live: map<nat, nat>, log: seq<Event>)
  {
    && Answers(addrs, offer, live0, start, size)
    && Distinct(addrs, live0)
    && live == WithRegions(live0, addrs, size)
    && log == log0 + Maps(addrs, size)
  }

  lemma NothingYet(offer: nat -> int, live: map<nat, nat>, log: seq<Event>, start: nat, size: nat)
    ensures Underway([], offer, live, log, start, size, live, log)
  {
  }

  /** The next call: refused if and only if it is not granted, and one more region otherwise. */
  lemma OneMoreCall(addrs: seq<nat>, offer: nat -> int, live0: map<nat, nat>, log0: seq<Event>, start: nat,
                    size: nat, live: map<nat, nat>, log: seq<Event>)
    requires Underway(addrs, offer, live0, log0, start, size, live, log)
    ensures var data := Offer(offer, start, |addrs|);
      && (Granted(offer, live0, start, |addrs|, size) <==> !Refuses(data, size, live))
      && (!Refuses(data, size, live) ==>
            Underway(addrs + [data], offer, live0, log0, start, size, live[data := size], log + [Mapped(data, size)]))
  {
    hide Granted, Answers, Distinct, WithRegions, Maps;
    var data := Offer(offer, start, |addrs|);
    GrantedMeans(live0, addrs, offer, start, size);
    if !Refuses(data, size, live) {
      AnswerOneMore(addrs, offer, live0, start, size);
      MapOneMore(live0, addrs, data, size);
    }
  }

  lemma RoundEnds(addrs: seq<nat>, offer: nat -> int, live0: map<nat, nat>, log0: seq<Event>, start: nat,
                  size: nat, live: map<nat, nat>, log: seq<Event>)
    requires Underway(addrs, offer, live0, log0, start, size, live, log)
    requires |addrs| <= MAX_MMAPS && (|addrs| < MAX_MMAPS ==> !Granted(offer, live0, start, |addrs|, size))
    ensures RoundOf(addrs, offer, live0, start, size) && Distinct(addrs, live0)
    ensures live == WithRegions(live0, addrs, size) && log == log0 + Maps(addrs, size)
  {
  }

  /** The first inner loop: map until the table is full or a mapping fails. */
  method MapRound(space: AddressSpace, maps: array<nat>, size: nat) returns (count: nat, good: bool)
    requires maps.Length == MAX_MMAPS
    modifies space, maps
    ensures good == (count == MAX_MMAPS) && count <= MAX_MMAPS
    ensures size == 0 ==> count == 0
    ensures RoundOf(maps[..count], space.offer, old(space.live), old(space.calls), size)
    ensures space.calls == old(space.calls) + count + if good then 0 else 1
    ensures Distinct(maps[..count], old(space.live))
    ensures space.live == WithRegions(old(space.live), maps[..count], size)
    ensures space.log == old(space.log) + Maps(maps[..count], size)
  {
    hide Underway, Granted, RoundOf, Distinct, WithRegions, Maps;
    good, count := true, 0;
    var i := 0;
    ghost var start, live0, log0 := space.calls, space.live, space.log;
    NothingYet(space.offer, live0, log0, start, size);
    assert maps[..0] == [];
    while i < MAX_MMAPS && good
      invariant 0 <= i <= MAX_MMAPS
      invariant if good then count == i else count == i - 1
      invariant size == 0 ==> count == 0 && (i > 0 ==> !good)
      invariant space.calls == start + i
      invariant Underway(maps[..count], space.offer, live0, log0, start, size, space.live, space.log)
      invariant !good ==> !Granted(space.offer, live0, start, count, size)
    {
      ghost var before := maps[..count];
      OneMoreCall(before, space.offer, live0, log0, start, size, space.live, space.log);
      var data := space.Mmap(size);
      if data != MAP_FAILED {
        maps[i] := data;
        assert maps[..count + 1] == before + [data];
        count := count + 1;
      } else {
        good := false;
      }
      i := i + 1;
    }
    RoundEnds(maps[..count], space.offer, live0, log0, start, size, space.live, space.log);
  }

  /** The second inner loop: unmap what was mapped. */
  method UnmapRound(space: AddressSpace, maps: array<nat>, count: nat, size: nat, ghost live: map<nat, nat>)
    requires count <= maps.Length
    requires Distinct(maps[..count], live)
    requires space.live == WithRegions(live, maps[..count], size)
    modifies space
    ensures space.live == live
    ensures space.log == old(space.log) + Unmaps(maps[..count], size)
    ensures space.calls == old(space.calls)
  {
    ghost var addrs := maps[..count];
    assert addrs[0..] == addrs && Unmaps(addrs[..0], size) == [];
    assert WithRegions(live, [], size) == live;
    for i := 0 to count
      invariant space.live == WithRegions(live, addrs[i..], size)
      invariant space.log == old(space.log) + Unmaps(addrs[..i], size)
      invariant space.calls == old(space.calls)
    {
      hide Unmaps, WithRegions, Distinct;
      UnmapOneMore(live, addrs, i, size);
      if maps[i] != 0 {
        space.Munmap(maps[i], size);
      }
    }
    assert addrs[..count] == addrs && addrs[count..] == [];
  }

  /** The size of a region in round `r`, for pages of `2^p` bytes. */
  function SizeAt(p: nat, r: nat): nat {
    if p + r < 64 then Pow2(p + r) else 0
  }

  /** `mmap_size *= 2` */
  function Doubled(size: nat): nat {
    size * 2 % WORD
  }

  function PagesIn(size: nat, pageSize: nat): nat
    requires pageSize > 0
  {
    size / pageSize
  }

  lemma Doubling(p: nat, r: nat)
    ensures Doubled(SizeAt(p, r)) == SizeAt(p, r + 1)
  {
    WordSizes();
    if p + r + 1 < 64 {
      Pow2Monotone(p + r + 1, 63);
      assert Pow2(64) == 2 * Pow2(63);
    }
  }

  /** A round: every region is mapped, then every region is unmapped, once and in the same order. */
  function RoundLog(addrs: seq<nat>, size: nat): (r: seq<Event>)
    ensures |r| == 2 * |addrs|
  {
    Maps(addrs, size) + Unmaps(addrs, size)
  }

  lemma RoundLogInOrder(addrs: seq<nat>, size: nat, i: nat)
    requires i < |addrs|
    ensures RoundLog(addrs, size)[i] == Mapped(addrs[i], size)
    ensures RoundLog(addrs, size)[|addrs| + i] == Unmapped(addrs[i], size)
  {
  }

  function RunLog(p: nat, rounds: seq<seq<nat>>): seq<Event> {
    if rounds == [] then []
    else var r := |rounds| - 1; RunLog(p, rounds[..r]) + RoundLog(rounds[r], SizeAt(p, r))
  }

  /** One pass through the outer loop. */
  method Round(space: AddressSpace, maps: array<nat>, size: nat) returns (count: nat, good: bool, ghost addrs: seq<nat>)
    requires maps.Length == MAX_MMAPS
    modifies space, maps
    ensures count == |addrs| <= MAX_MMAPS && good == (count == MAX_MMAPS)
    ensures size == 0 ==> addrs == []
    ensures RoundOf(addrs, space.offer, old(space.live), old(space.calls), size)
    ensures space.calls == old(space.calls) + count + if good then 0 else 1
    ensures Distinct(addrs, old(space.live))
    ensures space.live == old(space.live)
    ensures space.log == old(space.log) + RoundLog(addrs, size)
  {
    hide Maps, Unmaps, WithRegions, Distinct, RoundOf;
    count, good := MapRound(space, maps, size);
    addrs := maps[..count];
    UnmapRound(space, maps, count, size, old(space.live));
    forall i | 0 <= i < MAX_MMAPS {
      maps[i] := 0;
    }
  }

  lemma FirstRound(p: nat)
    requires p <= 30
    ensures Pow2(p) == SizeAt(p, 0) && Pow2(p) > 0
    ensures SizeAt(p, 64 - p) == 0
    ensures RunLog(p, []) == []
  {
  }

  lemma RunLogStep(p: nat, rounds: seq<seq<nat>>, addrs: seq<nat>)
    ensures RunLog(p, rounds + [addrs]) == RunLog(p, rounds) + RoundLog(addrs, SizeAt(p, |rounds|))
  {
    assert (rounds + [addrs])[..|rounds|] == rounds;
  }

  /** The number of the first `mmap` call of round `r`, all rounds before it having filled the table. */
  function RoundStart(base: nat, r: nat): nat {
    base + r * MAX_MMAPS
  }

  lemma NextRoundStart(base: nat, r: nat)
    ensures RoundStart(base, 0) == base
    ensures RoundStart(base, r + 1) == RoundStart(base, r) + MAX_MMAPS
  {
  }

  /** Every round is what the kernel's answers make of it. */
  ghost predicate RoundsOf(rounds: seq<seq<nat>>, offer: nat -> int, live: map<nat, nat>, base: nat, p: nat) {
    forall r :: 0 <= r < |rounds| ==> RoundOf(rounds[r], offer, live, RoundStart(base, r), SizeAt(p, r))
  }

  /** A whole run: all rounds but the last fill the table, and the last ends at the first refused call. */
  ghost predicate RunOf(rounds: seq<seq<nat>>, offer: nat -> int, live: map<nat, nat>, base: nat, p: nat) {
    && rounds != [] && |rounds| + p <= 65
    && RoundsOf(rounds, offer, live, base, p)
    && AllFull(rounds[..|rounds| - 1]) && |rounds[|rounds| - 1]| < MAX_MMAPS
  }

  /** None of the `(64 - p) * 32765` calls of the rounds whose size fits the word is refused. */
  ghost predicate NoneRefused(offer: nat -> int, live: map<nat, nat>, base: nat, p: nat) {
    forall r: nat, i: nat :: r + p < 64 && i < MAX_MMAPS ==>
      Granted(offer, live, RoundStart(base, r), i, SizeAt(p, r))
  }

  /** The run gets as far as size 0 if and only if the kernel refuses none of these calls. */
  lemma RunReachesSizeZero(rounds: seq<seq<nat>>, offer: nat -> int, live: map<nat, nat>, base: nat, p: nat)
    requires p <= 30 && RunOf(rounds, offer, live, base, p)
    ensures |rounds| == 65 - p <==> NoneRefused(offer, live, base, p)
  {
    hide Granted, RoundStart, SizeAt;
    var last := |rounds| - 1;
    assert RoundOf(rounds[last], offer, live, RoundStart(base, last), SizeAt(p, last));
    if |rounds| == 65 - p {
      forall r: nat, i: nat | r + p < 64 && i < MAX_MMAPS
        ensures Granted(offer, live, RoundStart(base, r), i, SizeAt(p, r))
      {
        assert rounds[..last][r] == rounds[r];
        assert RoundOf(rounds[r], offer, live, RoundStart(base, r), SizeAt(p, r));
      }
    }
  }

  lemma AnswersAreGranted(addrs: seq<nat>, offer: nat -> int, live: map<nat, nat>, start: nat, size: nat, i: nat)
    requires Answers(addrs, offer, live, start, size) && i < |addrs|
    ensures Granted(offer, live, start, i, size)
  {
    hide Granted;
  }

  lemma FullBeforeLast(rounds: seq<seq<nat>>, r: nat)
    requires r < |rounds| - 1 && AllFull(rounds[..|rounds| - 1])
    ensures |rounds[r]| == MAX_MMAPS
  {
    assert rounds[..|rounds| - 1][r] == rounds[r];
  }

  lemma RoundIsDetermined(a: seq<nat>, b: seq<nat>, offer: nat -> int, live: map<nat, nat>, start: nat, size: nat)
    requires RoundOf(a, offer, live, start, size) && RoundOf(b, offer, live, start, size)
    ensures a == b
  {
    if |a| == |b| {
      hide Granted;
    } else {
      hide Granted, Answers;
      if |a| < |b| {
        AnswersAreGranted(b, offer, live, start, size, |a|);
      } else {
        AnswersAreGranted(a, offer, live, start, size, |b|);
      }
    }
  }

  lemma StopsNoEarlier(a: seq<seq<nat>>, b: seq<seq<nat>>, offer: nat -> int, live: map<nat, nat>, base: nat, p: nat)
    requires RunOf(a, offer, live, base, p) && RunOf(b, offer, live, base, p)
    ensures |a| >= |b|
  {
    hide RoundOf, RoundStart, SizeAt, AllFull;
    var last := |a| - 1;
    if |a| < |b| {
      RoundIsDetermined(a[last], b[last], offer, live, RoundStart(base, last), SizeAt(p, last));
      FullBeforeLast(b, last);
    }
  }

  /** The kernel's answers determine the run. */
  lemma RunIsDetermined(a: seq<seq<nat>>, b: seq<seq<nat>>, offer: nat -> int, live: map<nat, nat>, base: nat, p: nat)
    requires RunOf(a, offer, live, base, p) && RunOf(b, offer, live, base, p)
    ensures a == b
  {
    hide RoundOf, RoundStart, SizeAt;
    StopsNoEarlier(a, b, offer, live, base, p);
    StopsNoEarlier(b, a, offer, live, base, p);
    forall r | 0 <= r < |a| ensures a[r] == b[r] {
      RoundIsDetermined(a[r], b[r], offer, live, RoundStart(base, r), SizeAt(p, r));
    }
  }

  // ----- The final message -----

  lemma {:induction false} ShiftOfPow2(r: nat, p: nat)
    ensures ShiftLeft(Pow2(r), p) == Pow2(p + r)
  {
    if p > 0 {
      ShiftOfPow2(r, p - 1);
    }
  }

  lemma AtLeastOnce(k: nat, b: nat)
    requires k >= 1
    ensures k * b >= b
  {
  }

  lemma QuotientIsUnique(a: nat, b: nat, d: nat, m: nat)
    requires a * b == d * b + m && m < b
    ensures a == d
  {
    assert (a - d) * b == a * b - d * b;
    if a > d {
      AtLeastOnce(a - d, b);
    } else if a < d {
      AtLeastOnce(d - a, b);
    }
  }

  lemma Quotient(a: nat, b: nat)
    requires b > 0
    ensures a * b / b == a
  {
    DivMod(a * b, b);
    QuotientIsUnique(a, b, a * b / b, a * b % b);
  }

  /** A region of round `r` has exactly `2^r` pages, as long as its size fits the word. */
  lemma PagesOfRound(p: nat, r: nat)
    requires p + r < 64
    ensures SizeAt(p, r) == Pow2(r) * Pow2(p) && PagesIn(SizeAt(p, r), Pow2(p)) == Pow2(r)
  {
    ShiftOfPow2(r, p);
    ShiftLeftIsTimesPow2(Pow2(r), p);
    Quotient(Pow2(r), Pow2(p));
  }

  lemma NoPages(pageSize: nat)
    requires pageSize > 0
    ensures PagesIn(0, pageSize) == 0
  {
    Quotient(0, pageSize);
  }

  lemma RunLength(rounds: seq<seq<nat>>, offer: nat -> int, live: map<nat, nat>, base: nat, p: nat)
    requires RunOf(rounds, offer, live, base, p)
    ensures 1 <= |rounds| <= 65 - p
  {
  }

  lemma PagesAfter(p: nat, rounds: nat)
    requires p <= 30 && 1 <= rounds <= 65 - p
    ensures var reported, counted := PagesIn(SizeAt(p, rounds), Pow2(p)), PagesIn(SizeAt(p, rounds - 1), Pow2(p));
      && reported == (if p + rounds < 64 then 2 * counted else 0)
      && (reported == counted <==> rounds == 65 - p)
  {
    hide PagesIn;
    NoPages(Pow2(p));
    if p + rounds < 64 {
      PagesOfRound(p, rounds);
    }
    if p + rounds - 1 < 64 {
      PagesOfRound(p, rounds - 1);
    }
  }

  /**
   The final message pairs the count of the last round with the size of the next.  It
   reports twice the pages that the counted regions have, or 0 pages if doubling the
   size has wrapped to 0.  It is right if and only if the kernel refuses none of the
   calls with a size other than 0, so that the last round counts no region at all.
   */
  lemma ReportedPages(rounds: seq<seq<nat>>, offer: nat -> int, live: map<nat, nat>, base: nat, p: nat,
                      reportedPages: nat)
    requires p <= 30 && RunOf(rounds, offer, live, base, p)
    requires reportedPages == PagesIn(SizeAt(p, |rounds|), Pow2(p))
    ensures var counted := PagesIn(SizeAt(p, |rounds| - 1), Pow2(p));
      && reportedPages == (if p + |rounds| < 64 then 2 * counted else 0)
      && (reportedPages == counted <==> NoneRefused(offer, live, base, p))
  {
    hide RunOf, NoneRefused;
    RunReachesSizeZero(rounds, offer, live, base, p);
    RunLength(rounds, offer, live, base, p);
    PagesAfter(p, |rounds|);
  }

  // ----- do_max_alloc -----

  /**
   For every behaviour of the kernel the function ends, after at most `65 - p`
   rounds, with the mappings it found; `rounds` holds the regions of each round.
   */
  method DoMaxAlloc(space: AddressSpace, p: nat, tableAllocated: bool)
    returns (ret: int, count: nat, reportedPages: nat, ghost rounds: seq<seq<nat>>)
    requires p <= 30
    modifies space
    ensures space.live == old(space.live)
    ensures space.log == old(space.log) + RunLog(p, rounds)
    ensures !tableAllocated ==> ret == -1 && rounds == []
    ensures tableAllocated ==>
              && ret == 0
              && RunOf(rounds, space.offer, old(space.live), old(space.calls), p)
              && space.calls == RoundStart(old(space.calls), |rounds| - 1) + count + 1
              && AllDistinct(rounds, old(space.live))
              && (forall r :: 0 <= r < |rounds| && SizeAt(p, r) == 0 ==> rounds[r] == [])
              && count == |rounds[|rounds| - 1]|
              && reportedPages == PagesIn(SizeAt(p, |rounds|), Pow2(p))
              && (reportedPages == PagesIn(SizeAt(p, |rounds| - 1), Pow2(p)) <==>
                  NoneRefused(space.offer, old(space.live), old(space.calls), p))
  {
    hide RoundLog, RunLog, Distinct, Pow2, SizeAt, Doubled, PagesIn, RoundOf, RoundStart, NoneRefused;
    rounds, count, reportedPages := [], 0, 0;
    FirstRound(p);
    var pageSize := Pow2(p);
    var mmapSize := pageSize;
    if !tableAllocated {
      return -1, count, reportedPages, rounds;
    }
    var maps := new nat[MAX_MMAPS](_ => 0);
    var good := true;
    ghost var base, offer, live := space.calls, space.offer, space.live;
    NextRoundStart(base, 0);
    while good
      invariant space.live == live
      invariant space.log == old(space.log) + RunLog(p, rounds)
      invariant |rounds| <= 65 - p && mmapSize == SizeAt(p, |rounds|)
      invariant good ==> |rounds| <= 64 - p
      invariant AllDistinct(rounds, live)
      invariant RoundsOf(rounds, offer, live, base, p)
      invariant forall r :: 0 <= r < |rounds| && SizeAt(p, r) == 0 ==> rounds[r] == []
      invariant good ==> AllFull(rounds) && space.calls == RoundStart(base, |rounds|)
      invariant !good ==> rounds != [] && count == |rounds[|rounds| - 1]| < MAX_MMAPS && AllFull(rounds[..|rounds| - 1])
                          && space.calls == RoundStart(base, |rounds| - 1) + count + 1
      decreases good, 65 - p - |rounds|
    {
      ghost var addrs;
      count, good, addrs := Round(space, maps, mmapSize);
      Doubling(p, |rounds|);
      RunLogStep(p, rounds, addrs);
      NextRoundStart(base, |rounds|);
      assert (rounds + [addrs])[..|rounds|] == rounds;
      mmapSize := Doubled(mmapSize);
      rounds := rounds + [addrs];
    }
    ret, reportedPages := 0, PagesIn(mmapSize, pageSize);
    hide RoundsOf;
    ReportedPages(rounds, offer, live, base, p, reportedPages);
  }

  function OneRegion(call: nat): int {
    if call == 0 then 4096 else 0
  }

  function NoRegion(call: nat): int {
    0
  }

  lemma SizeOfFirstRound()
    ensures SizeAt(12, 0) > 0
  {
  }

  lemma TwoPages()
    ensures Pow2(1) == 2
  {
  }

  lemma OneRegionRun(rounds: seq<seq<nat>>)
    requires RunOf(rounds, OneRegion, map[], 0, 12)
    ensures rounds == [[4096]]
  {
    hide SizeAt, Pow2, AllFull;
    SizeOfFirstRound();
    assert RoundOf(rounds[0], OneRegion, map[], 0, SizeAt(12, 0));
    assert RoundOf([4096], OneRegion, map[], 0, SizeAt(12, 0));
    RoundIsDetermined(rounds[0], [4096], OneRegion, map[], 0, SizeAt(12, 0));
    if |rounds| > 1 {
      FullBeforeLast(rounds, 0);
    }
  }

  lemma NoRegionRun(rounds: seq<seq<nat>>)
    requires RunOf(rounds, NoRegion, map[], 0, 12)
    ensures rounds == [[]]
  {
    hide SizeAt, Pow2, AllFull;
    assert RoundOf(rounds[0], NoRegion, map[], 0, SizeAt(12, 0));
    assert RoundOf([], NoRegion, map[], 0, SizeAt(12, 0));
    RoundIsDetermined(rounds[0], [], NoRegion, map[], 0, SizeAt(12, 0));
    if |rounds| > 1 {
      FullBeforeLast(rounds, 0);
    }
  }

  /**
   Two runs with pages of 4096 bytes.  A kernel that grants one page and a kernel that
   grants nothing: in both, regions of two pages are reported, which were never tried.
   */
  method SmallKernels() returns (countOne: nat, pagesOne: nat, countNone: nat, pagesNone: nat)
    ensures countOne == 1 && pagesOne == 2
    ensures countNone == 0 && pagesNone == 2
  {
    hide PagesIn, Pow2;
    var one := new AddressSpace(OneRegion, map[]);
    var ret;
    ghost var rounds;
    ret, countOne, pagesOne, rounds := DoMaxAlloc(one, 12, true);
    OneRegionRun(rounds);
    var none := new AddressSpace(NoRegion, map[]);
    ret, countNone, pagesNone, rounds := DoMaxAlloc(none, 12, true);
    NoRegionRun(rounds);
    PagesOfRound(12, 1);
    TwoPages();
  }

  /** Mappings minus unmappings in a log. */
  function Net(log: seq<Event>): int {
    if log == [] then 0 else Net(log[..|log| - 1]) + if log[|log| - 1].Mapped? then 1 else -1
  }

  lemma {:induction false} NetConcat(a: seq<Event>, b: seq<Event>)
    ensures Net(a + b) == Net(a) + Net(b)
    decreases |b|
  {
    if b == [] {
      assert a + b == a;
    } else {
      assert (a + b)[..|a + b| - 1] == a + b[..|b| - 1];
      NetConcat(a, b[..|b| - 1]);
    }
  }

  lemma {:induction false} NetOfOneKind(log: seq<Event>, mapped: bool)
    requires forall i :: 0 <= i < |log| ==> log[i].Mapped? == mapped
    ensures Net(log) == if mapped then |log| else -|log|
  {
    if log != [] {
      NetOfOneKind(log[..|log| - 1], mapped);
    }
  }

  /** Within a round the number of live regions rises to the size of the round and falls back to zero. */
  lemma NetInRound(addrs: seq<nat>, size: nat, k: nat)
    requires k <= 2 * |addrs|
    ensures Net(RoundLog(addrs, size)[..k]) == if k <= |addrs| then k else 2 * |addrs| - k
  {
    var up, down := Maps(addrs, size), Unmaps(addrs, size);
    if k <= |addrs| {
      assert RoundLog(addrs, size)[..k] == up[..k];
      NetOfOneKind(up[..k], true);
    } else {
      assert RoundLog(addrs, size)[..k] == up + down[..k - |addrs|];
      NetConcat(up, down[..k - |addrs|]);
      NetOfOneKind(up, true);
      NetOfOneKind(down[..k - |addrs|], false);
    }
  }

  /** At every moment of a run between zero and 32765 of its regions are live, and none at the end. */
  lemma {:induction false} NeverMoreThanTheTable(p: nat, rounds: seq<seq<nat>>, k: nat)
    requires forall r :: 0 <= r < |rounds| ==> |rounds[r]| <= MAX_MMAPS
    requires k <= |RunLog(p, rounds)|
    ensures 0 <= Net(RunLog(p, rounds)[..k]) <= MAX_MMAPS
    ensures Net(RunLog(p, rounds)) == 0
    decreases |rounds|
  {
    hide RoundLog, SizeAt;
    if rounds != [] {
      var r := |rounds| - 1;
      var before, round := RunLog(p, rounds[..r]), RoundLog(rounds[r], SizeAt(p, r));
      NeverMoreThanTheTable(p, rounds[..r], if k <= |before| then k else |before|);
      assert Net(round) == 0 by {
        NetInRound(rounds[r], SizeAt(p, r), |round|);
        assert round[..|round|] == round;
      }
      NetConcat(before, round);
      if k <= |before| {
        assert (before + round)[..k] == before[..k];
      } else {
        assert (before + round)[..k] == before + round[..k - |before|];
        NetInRound(rounds[r], SizeAt(p, r), k - |before|);
        NetConcat(before, round[..k - |before|]);
      }
    }
  }
}
