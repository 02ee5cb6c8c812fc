/**
 Time arithmetic: `timespec_normalize` and its users in bin/uncache.c, against the
 split into seconds and nanoseconds that `lt_sleep` uses in src/clocks.c.
 */
module TimeSpec {

  const NS: int := 1_000_000_000

  datatype Timespec = Timespec(sec: int, nsec: int)
  {
    function Total(): int {
      sec * NS + nsec
    }

    /** What POSIX asks of a `struct timespec`. */
    predicate Canonical() {
      0 <= nsec < NS
    }
  }

  /** The split in `lt_sleep`, for a total that is given in two parts. */
  function Split(sec: int, nsec: int): (t: Timespec)
    ensures t.Canonical() && t.Total() == sec * NS + nsec
  {
    Timespec(sec + nsec / NS, nsec % NS)
  }

  /** There is one canonical value for every total, so `Split` is the split. */
  lemma CanonicalIsUnique(a: Timespec, b: Timespec)
    requires a.Canonical() && b.Canonical() && a.Total() == b.Total()
    ensures a == b
  {
  }

  /** The value that `lt_sleep` computes from a timeout in nanoseconds is the canonical one with that total, and the only one. */
  lemma SleepSplit(timeout: nat, t: Timespec)
    ensures t.Canonical() && t.Total() == timeout <==> t == Timespec(timeout / NS, timeout % NS)
    ensures Timespec(timeout / NS, timeout % NS) == Split(0, timeout)
  {
    if t.Canonical() && t.Total() == timeout {
      CanonicalIsUnique(t, Split(0, timeout));
    }
  }

  /** The inputs on which the loop with `>` stops one step early. */
  predicate StopsEarly(nsec: int) {
    nsec > 0 && nsec % NS == 0
  }

  /**
   What `timespec_normalize` stores: the canonical split, except that a positive
   multiple of 10^9 nanoseconds keeps one second in the nanoseconds field.
   */
  function Normalized(sec: int, nsec: int): (t: Timespec)
    ensures t.Total() == sec * NS + nsec
    ensures 0 <= t.nsec <= NS
    ensures t.Canonical() <==> !StopsEarly(nsec)
    ensures t == Split(sec, nsec) <==> !StopsEarly(nsec)
  {
    var s := Split(sec, nsec);
    if StopsEarly(nsec) then Timespec(s.sec - 1, NS) else s
  }

  /** Total, range and the side from which it was reached determine the stored value. */
  lemma NormalFormIsUnique(sec: int, nsec: int, t: Timespec)
    requires t.Total() == sec * NS + nsec
    requires if nsec <= 0 then 0 <= t.nsec < NS else 0 < t.nsec <= NS
    ensures t == Normalized(sec, nsec)
  {
  }

  method Normalize(sec0: int, nsec0: int) returns (ts: Timespec)
    ensures ts == Normalized(sec0, nsec0)
  {
    var sec, nsec := sec0, nsec0;
    while nsec > NS
      invariant sec * NS + nsec == sec0 * NS + nsec0
      invariant nsec0 <= 0 ==> nsec == nsec0
      invariant nsec0 > 0 ==> nsec > 0
    {
      nsec := nsec - NS;
      sec := sec + 1;
    }
    while nsec < 0
      invariant sec * NS + nsec == sec0 * NS + nsec0
      invariant if nsec0 <= 0 then nsec < NS else 0 < nsec <= NS
      decreases -nsec
    {
      nsec := nsec + NS;
      sec := sec - 1;
    }
    ts := Timespec(sec, nsec);
    NormalFormIsUnique(sec0, nsec0, ts);
  }

  function Sub(a: Timespec, b: Timespec): Timespec {
    Normalized(a.sec - b.sec, a.nsec - b.nsec)
  }

  function Add(a: Timespec, b: Timespec): Timespec {
    Normalized(a.sec + b.sec, a.nsec + b.nsec)
  }

  method TimespecSub(lhs: Timespec, rhs: Timespec) returns (delta: Timespec)
    ensures delta == Sub(lhs, rhs) && delta.Total() == lhs.Total() - rhs.Total()
  {
    delta := Normalize(lhs.sec - rhs.sec, lhs.nsec - rhs.nsec);
  }

  method TimespecAdd(lhs: Timespec, rhs: Timespec) returns (sum: Timespec)
    ensures sum == Add(lhs, rhs) && sum.Total() == lhs.Total() + rhs.Total()
  {
    sum := Normalize(lhs.sec + rhs.sec, lhs.nsec + rhs.nsec);
  }

  /** Adding and taking away again gives back every canonical value, field by field. */
  lemma SubUndoesAdd(a: Timespec, b: Timespec)
    requires a.Canonical() && b.Canonical()
    ensures Sub(Add(a, b), b) == a
  {
    CanonicalIsUnique(Sub(Add(a, b), b), a);
  }

  /** The other order keeps the total; the fields come back except in one exact case. */
  lemma AddUndoesSub(a: Timespec, b: Timespec)
    requires a.Canonical() && b.Canonical()
    ensures Add(Sub(a, b), b).Total() == a.Total()
    ensures Add(Sub(a, b), b) == a <==> !(a.nsec == 0 && b.nsec > 0)
  {
  }

  /** A difference of canonical values is canonical, a sum exactly when the nanoseconds do not add up to a second. */
  lemma WhenCanonical(a: Timespec, b: Timespec)
    requires a.Canonical() && b.Canonical()
    ensures Sub(a, b).Canonical()
    ensures Add(a, b).Canonical() <==> a.nsec + b.nsec != NS
  {
  }

  /** Division of `int64_t`, which truncates. */
  function TruncDiv(n: int, d: int): int
    requires d > 0
  {
    if n >= 0 then n / d else -(-n / d)
  }

  function ToUs(ts: Timespec): int {
    ts.sec * 1_000_000 + TruncDiv(ts.nsec, 1000)
  }

  /** The conversion is the exact floor whenever the nanoseconds are not negative, the stored 10^9 included. */
  lemma ToUsIsFloor(ts: Timespec)
    requires ts.nsec >= 0
    ensures ToUs(ts) == ts.Total() / 1000
  {
    assert ts.Total() == ts.sec * 1_000_000 * 1000 + ts.nsec;
  }

  /** For a negative field the conversion rounds up instead, because the division truncates. */
  lemma ToUsIsCeiling(ts: Timespec)
    requires ts.nsec <= 0
    ensures ToUs(ts) == -(-ts.Total() / 1000)
  {
    assert -ts.Total() == -ts.nsec - ts.sec * 1_000_000 * 1000;
  }

  /** Elapsed microseconds: the floor of the nanosecond difference, in either order. */
  lemma ElapsedIsExact(start: Timespec, end: Timespec)
    requires start.Canonical() && end.Canonical()
    ensures ToUs(Sub(end, start)) == (end.Total() - start.Total()) / 1000
  {
    ToUsIsFloor(Sub(end, start));
  }
}
