/**
 `read_file`: fill a buffer from a file with as many reads as it takes.

 The kernel decides how many bytes a read returns.  A schedule fixes that choice:
 entry `i` of the schedule is negative when the `i`-th read fails, and otherwise
 the number of bytes it would like to return.  A read returns at least one byte
 before the end of the file, never more than was asked for, and 0 at the end.
 */
module FileIO {

  import opened CLib

  datatype File = Unopenable | Readable(content: string, schedule: nat -> int)

  /** What read number `i` returns when `got` bytes have arrived. */
  function ReadReturns(content: string, schedule: nat -> int, i: nat, got: nat, maxlen: nat): (n: int)
    requires got < maxlen
    ensures n > 0 ==> got + n <= Min(|content|, maxlen)
    ensures n == 0 ==> |content| <= got
  {
    if schedule(i) < 0 then -1
    else if got >= |content| then 0
    else if schedule(i) == 0 then 1
    else Min(schedule(i), Min(|content|, maxlen) - got)
  }

  /** Whether one of the reads that are issued from read number `i` on fails. */
  predicate SomeReadFails(content: string, schedule: nat -> int, i: nat, got: nat, maxlen: nat)
    decreases maxlen - got
  {
    && got < maxlen
    && var n := ReadReturns(content, schedule, i, got, maxlen);
       n < 0 || (n > 0 && SomeReadFails(content, schedule, i + 1, got + n, maxlen))
  }

  /** The bytes a successful `read_file` delivers. */
  function Received(file: File, maxlen: nat): Option<string> {
    match file
    case Unopenable => None
    case Readable(content, schedule) =>
      if SomeReadFails(content, schedule, 0, 0, maxlen) then None
      else Some(content[..Min(|content|, maxlen)])
  }

  ghost predicate ErrorFree(schedule: nat -> int) {
    forall i: nat :: schedule(i) >= 0
  }

  /** A failure has its cause in one of the first reads, at most one read for every byte and one more. */
  lemma {:induction false} FailureHasCause(content: string, schedule: nat -> int, i: nat, got: nat, maxlen: nat)
    returns (k: nat)
    requires SomeReadFails(content, schedule, i, got, maxlen)
    ensures i <= k && schedule(k) < 0
    ensures got <= |content| ==> k - i <= Min(|content|, maxlen) - got
    decreases maxlen - got
  {
    var n := ReadReturns(content, schedule, i, got, maxlen);
    if n < 0 {
      k := i;
    } else {
      k := FailureHasCause(content, schedule, i + 1, got + n, maxlen);
    }
  }

  /** How the file is cut into reads is invisible: only its content matters. */
  lemma ChunkingIsInvisible(content: string, first: nat -> int, second: nat -> int, maxlen: nat)
    requires ErrorFree(first) && ErrorFree(second)
    ensures Received(Readable(content, first), maxlen) == Received(Readable(content, second), maxlen)
            == Some(content[..Min(|content|, maxlen)])
  {
    if SomeReadFails(content, first, 0, 0, maxlen) {
      var k := FailureHasCause(content, first, 0, 0, maxlen);
    }
    if SomeReadFails(content, second, 0, 0, maxlen) {
      var k := FailureHasCause(content, second, 0, 0, maxlen);
    }
  }

  lemma ReadStep(content: string, schedule: nat -> int, i: nat, got: nat, maxlen: nat)
    ensures got >= maxlen ==> !SomeReadFails(content, schedule, i, got, maxlen)
    ensures got < maxlen ==>
      var n := ReadReturns(content, schedule, i, got, maxlen);
      SomeReadFails(content, schedule, i, got, maxlen) <==>
      n < 0 || (n > 0 && SomeReadFails(content, schedule, i + 1, got + n, maxlen))
  {
  }

  /** The first `got` bytes of a buffer that held `before` have arrived. */
  ghost predicate Filled(buf: string, content: string, before: string, got: nat) {
    got <= |content| && got <= |before| && buf == content[..got] + before[got..]
  }

  /** A buffer that holds the first `got` bytes receives the next `n`. */
  lemma FillMore(content: string, before: string, sofar: string, buf: string, got: nat, n: nat)
    requires got + n <= |content| && got + n <= |before| && Filled(sofar, content, before, got)
    requires buf == sofar[..got] + content[got..got + n] + sofar[got + n..]
    ensures Filled(buf, content, before, got + n)
  {
    assert sofar[got + n..] == before[got + n..];
    assert content[..got + n] == content[..got] + content[got..got + n];
  }

  lemma FilledMeans(buf: string, content: string, before: string, got: nat)
    requires Filled(buf, content, before, got)
    ensures buf == content[..got] + before[got..]
    ensures forall k :: got <= k < |before| ==> buf[k] == before[k]
  {
  }

  /** One `read` into the buffer at offset `got`: the next bytes of the file arrive there, nothing else changes. */
  method Read(file: File, i: nat, buf: array<char>, got: nat, maxlen: nat, ghost before: string) returns (n: int)
    requires file.Readable? && got < maxlen <= buf.Length
    requires Filled(buf[..], file.content, before, got)
    modifies buf
    ensures n == ReadReturns(file.content, file.schedule, i, got, maxlen)
    ensures Filled(buf[..], file.content, before, if n > 0 then got + n else got)
  {
    n := ReadReturns(file.content, file.schedule, i, got, maxlen);
    ghost var sofar := buf[..];
    if n > 0 {
      forall j | got <= j < got + n {
        buf[j] := file.content[j];
      }
      assert buf[..] == sofar[..got] + file.content[got..got + n] + sofar[got + n..];
      FillMore(file.content, before, sofar, buf[..], got, n);
    }
  }

  /**
   What the reads returned, in order: a read fails exactly if the schedule says so,
   and every read but the last has delivered something.
   */
  ghost predicate ReadsInOrder(returned: seq<int>, schedule: nat -> int) {
    && (forall k :: 0 <= k < |returned| ==> (returned[k] < 0 <==> schedule(k) < 0))
    && (forall k :: 0 <= k < |returned| - 1 ==> returned[k] > 0)
  }

  /** The loop of reads: how many bytes have arrived, and what the reads returned. */
  method FillBuffer(file: File, buf: array<char>, maxlen: nat) returns (got: nat, n: int, ghost returned: seq<int>)
    requires file.Readable? && maxlen <= buf.Length
    modifies buf
    ensures got <= Min(|file.content|, maxlen)
    ensures Filled(buf[..], file.content, old(buf[..]), got)
    ensures n < 0 <==> SomeReadFails(file.content, file.schedule, 0, 0, maxlen)
    ensures n >= 0 ==> got == Min(|file.content|, maxlen)
    ensures ReadsInOrder(returned, file.schedule)
    ensures n == if returned == [] then 0 else returned[|returned| - 1]
    ensures maxlen > 0 ==> returned != []
  {
    n, got, returned := 0, 0, [];
    var i: nat := 0;
    ghost var before := buf[..];
    assert Filled(buf[..], file.content, before, 0);
    hide SomeReadFails, Filled;
    while true
      invariant got <= Min(|file.content|, maxlen)
      invariant Filled(buf[..], file.content, before, got)
      invariant n >= 0
      invariant SomeReadFails(file.content, file.schedule, i, got, maxlen)
                <==> SomeReadFails(file.content, file.schedule, 0, 0, maxlen)
      invariant |returned| == i && ReadsInOrder(returned, file.schedule)
      invariant if i == 0 then got == n == 0 else n == returned[i - 1] > 0
      decreases maxlen - got
    {
      ReadStep(file.content, file.schedule, i, got, maxlen);
      if got >= maxlen {
        break;
      }
      n := Read(file, i, buf, got, maxlen, before);
      returned := returned + [n];
      if n <= 0 {
        break;
      }
      got := got + n;
      i := i + 1;
    }
  }

  /**
   `read_file`: -1 if the file cannot be opened or a read fails, otherwise the number
   of bytes, which are the beginning of the file; the rest of the buffer is kept.
   */
  method ReadFile(file: File, buf: array<char>, maxlen: nat) returns (ret: int, ghost returned: seq<int>)
    requires maxlen <= buf.Length
    modifies buf
    ensures ret == match Received(file, maxlen) case None => -1 case Some(s) => |s|
    ensures ret >= 0 ==> ret <= maxlen && buf[..] == Received(file, maxlen).value + old(buf[ret..])
    ensures forall k :: maxlen <= k < buf.Length ==> buf[k] == old(buf[k])
    ensures file.Unopenable? ==> ret == -1 && buf[..] == old(buf[..])
    ensures ret == -1 || (file.Readable? && ret == Min(|file.content|, maxlen)
                          && buf[..] == file.content[..ret] + old(buf[ret..]))
    ensures file.Readable? && ErrorFree(file.schedule) ==> ret != -1
    ensures file.Readable? && maxlen > 0 && file.schedule(0) < 0 ==> ret == -1
    ensures file.Readable? ==> ReadsInOrder(returned, file.schedule) && (maxlen > 0 ==> returned != [])
    ensures ret == -1 <==> file.Unopenable? || (returned != [] && returned[|returned| - 1] < 0)
  {
    hide SomeReadFails, Filled;
    returned := [];
    if file.Unopenable? {
      return -1, returned;
    }
    var got, n;
    got, n, returned := FillBuffer(file, buf, maxlen);
    FilledMeans(buf[..], file.content, old(buf[..]), got);
    if n < 0 {
      ret := -1;
    } else {
      ret := got;
    }
  }
}
