/**
 The execution-time file of bin/rtspin.c: `skip_to_next_line`, `skip_comments` and
 `get_exec_times`, which reads the file twice, first to count the jobs and then to
 store their execution times.

 `fscanf` with "%lf" is a parameter: `scan` gives the number at the start of a token,
 if there is one, and how many characters of the token are consumed.  No number
 contains white space, so the token decides.
 */
module ExecTimes {
  import opened CLib

  // ----- The format -----

  /** The first newline at or after `p`, or the end of the file. */
  function LineEnd(c: string, p: nat): (e: nat)
    requires p <= |c|
    ensures p <= e <= |c|
    ensures forall k :: p <= k < e ==> c[k] != '\n'
    ensures e < |c| ==> c[e] == '\n'
    decreases |c| - p
  {
    if p == |c| || c[p] == '\n' then p else LineEnd(c, p + 1)
  }

  /** Where the line after the one at `p` starts. */
  function NextLine(c: string, p: nat): (q: nat)
    requires p <= |c|
    ensures q <= |c| && (p < |c| ==> q > p)
  {
    var e := LineEnd(c, p);
    if e < |c| then e + 1 else e
  }

  /** From the line start `p`, past all comment lines. */
  function PastComments(c: string, p: nat): (q: nat)
    requires p <= |c|
    ensures p <= q <= |c|
    ensures q < |c| ==> c[q] != '#'
    decreases |c| - p
  {
    if p < |c| && c[p] == '#' then PastComments(c, NextLine(c, p)) else p
  }

  /** The newline-terminated lines from `p` on that do not start with '#'. */
  function DataLines(c: string, p: nat): seq<string>
    requires p <= |c|
    decreases |c| - p
  {
    var e := LineEnd(c, p);
    if e == |c| then []
    else (if c[p] == '#' then [] else [c[p..e]]) + DataLines(c, e + 1)
  }

  /** The first character at or after `p` that is not white space, or the end. */
  function BlanksEnd(c: string, p: nat): (q: nat)
    requires p <= |c|
    ensures p <= q <= |c|
    ensures forall k :: p <= k < q ==> IsSpace(c[k])
    ensures q < |c| ==> !IsSpace(c[q])
    decreases |c| - p
  {
    if p < |c| && IsSpace(c[p]) then BlanksEnd(c, p + 1) else p
  }

  /** The first white-space character at or after `p`, or the end. */
  function TokenEnd(c: string, p: nat): (q: nat)
    requires p <= |c|
    ensures p <= q <= |c|
    ensures forall k :: p <= k < q ==> !IsSpace(c[k])
    ensures q < |c| ==> IsSpace(c[q])
    decreases |c| - p
  {
    if p < |c| && !IsSpace(c[p]) then TokenEnd(c, p + 1) else p
  }

  /** The white-space separated fields of a line from `p` on. */
  function FieldsFrom(line: string, p: nat): seq<string>
    requires p <= |line|
    decreases |line| - p
  {
    var q := BlanksEnd(line, p);
    if q == |line| then []
    else
      var e := TokenEnd(line, q);
      assert e > q;
      [line[q..e]] + FieldsFrom(line, e)
  }

  function Fields(line: string): seq<string> {
    FieldsFrom(line, 0)
  }

  lemma {:induction false} LineEndFromHere(c: string, p: nat, q: nat)
    requires p <= q <= |c|
    ensures LineEnd(c, q) == p + LineEnd(c[p..], q - p)
    decreases |c| - q
  {
    if q < |c| && c[q] != '\n' {
      LineEndFromHere(c, p, q + 1);
    }
  }

  lemma SliceFromHere(c: string, p: nat, a: nat, b: nat)
    requires p <= a <= b <= |c|
    ensures c[a..b] == c[p..][a - p..b - p]
  {
  }

  lemma {:induction false} DataLinesFromHere(c: string, p: nat, q: nat)
    requires p <= q <= |c|
    ensures DataLines(c, q) == DataLines(c[p..], q - p)
    decreases |c| - q
  {
    hide LineEnd;
    var e := LineEnd(c, q);
    LineEndFromHere(c, p, q);
    if e < |c| {
      SliceFromHere(c, p, q, e);
      DataLinesFromHere(c, p, e + 1);
    }
  }

  lemma {:induction false} LineEndIs(c: string, p: nat, e: nat)
    requires p <= e <= |c| && (e < |c| ==> c[e] == '\n')
    requires forall k :: p <= k < e ==> c[k] != '\n'
    ensures LineEnd(c, p) == e
    decreases e - p
  {
    if p < e {
      LineEndIs(c, p + 1, e);
    }
  }

  /** The data lines of a text, line by line: a line counts unless it starts with '#', and only if it is terminated. */
  lemma DataLinesOfText(line: string, rest: string)
    requires '\n' !in line
    ensures DataLines(line + "\n" + rest, 0) == (if line != "" && line[0] == '#' then [] else [line]) + DataLines(rest, 0)
    ensures DataLines(line, 0) == []
  {
    hide LineEnd;
    var c, e := line + "\n" + rest, |line|;
    LineEndIs(c, 0, e);
    LineEndIs(line, 0, e);
    assert c[0..e] == line && c[e + 1..] == rest;
    DataLinesFromHere(c, e + 1, e + 1);
  }

  lemma {:induction false} BlanksFromHere(c: string, p: nat, q: nat)
    requires p <= q <= |c|
    ensures BlanksEnd(c, q) == p + BlanksEnd(c[p..], q - p)
    decreases |c| - q
  {
    if q < |c| && IsSpace(c[q]) {
      BlanksFromHere(c, p, q + 1);
    }
  }

  lemma {:induction false} TokenFromHere(c: string, p: nat, q: nat)
    requires p <= q <= |c|
    ensures TokenEnd(c, q) == p + TokenEnd(c[p..], q - p)
    decreases |c| - q
  {
    if q < |c| && !IsSpace(c[q]) {
      TokenFromHere(c, p, q + 1);
    }
  }

  lemma FieldsStep(line: string, p: nat)
    requires p <= |line|
    ensures var q := BlanksEnd(line, p);
      if q == |line| then FieldsFrom(line, p) == []
      else q < TokenEnd(line, q) && FieldsFrom(line, p) == [line[q..TokenEnd(line, q)]] + FieldsFrom(line, TokenEnd(line, q))
  {
  }

  lemma {:induction false} FieldsFromHere(line: string, p: nat, q: nat)
    requires p <= q <= |line|
    ensures FieldsFrom(line, q) == FieldsFrom(line[p..], q - p)
    decreases |line| - q
  {
    hide BlanksEnd, TokenEnd, FieldsFrom, IsSpace;
    var b := BlanksEnd(line, q);
    BlanksFromHere(line, p, q);
    FieldsStep(line, q);
    FieldsStep(line[p..], q - p);
    if b < |line| {
      TokenFromHere(line, p, b);
      SliceFromHere(line, p, b, TokenEnd(line, b));
      FieldsFromHere(line, p, TokenEnd(line, b));
    }
  }

  lemma {:induction false} TokenEndAt(c: string, p: nat, e: nat)
    requires p <= e <= |c| && (e < |c| ==> IsSpace(c[e]))
    requires forall k :: p <= k < e ==> !IsSpace(c[k])
    ensures TokenEnd(c, p) == e
    decreases e - p
  {
    if p < e {
      TokenEndAt(c, p + 1, e);
    }
  }

  /** The fields of a line, from left to right: white space separates them and belongs to none. */
  lemma FieldsOfLine(first: string, rest: string)
    requires first != "" && (rest == "" || IsSpace(rest[0]))
    requires forall i :: 0 <= i < |first| ==> !IsSpace(first[i])
    ensures Fields(first + rest) == [first] + Fields(rest)
    ensures rest != "" ==> Fields(rest) == Fields(rest[1..])
    ensures Fields("") == []
  {
    hide TokenEnd;
    var line, e := first + rest, |first|;
    TokenEndAt(line, 0, e);
    assert BlanksEnd(line, 0) == 0;
    assert line[0..e] == first && line[e..] == rest;
    FieldsFromHere(line, e, e);
    if rest != "" {
      FieldsFromHere(rest, 1, 1);
      assert BlanksEnd(rest, 0) == BlanksEnd(rest, 1);
    }
  }

  datatype Number<T> = NoNumber | Number(value: T, consumed: nat)

  /** Column 1 is the first field, and so are all columns below it. */
  function Index(column: int): nat {
    if column < 1 then 0 else column - 1
  }

  predicate HasTime<T>(line: string, column: int, scan: string -> Number<T>) {
    Index(column) < |Fields(line)| && scan(Fields(line)[Index(column)]).Number?
  }

  /** Where `k` tokens have been skipped from `p` on, line ends not being special. */
  function PastFields(c: string, p: nat, k: nat): (q: nat)
    requires p <= |c|
    ensures p <= q <= |c|
    decreases k
  {
    if k == 0 then p else PastFields(c, TokenEnd(c, BlanksEnd(c, p)), k - 1)
  }

  /** The number that the token after `p` starts with. */
  function NumberAt<T>(c: string, p: nat, scan: string -> Number<T>): Number<T>
    requires p <= |c|
  {
    var q := BlanksEnd(c, p);
    if q == |c| then NoNumber else scan(c[q..TokenEnd(c, q)])
  }

  /** Where the stream stands when that number has been read. */
  function AfterNumber<T>(c: string, p: nat, n: Number<T>): (q: nat)
    requires p <= |c| && n.Number?
    ensures p <= q <= |c|
  {
    var q := BlanksEnd(c, p);
    Min(q + n.consumed, TokenEnd(c, q))
  }

  // ----- The stream -----

  const EOF := -1

  class Stream {
    const content: string
    var pos: nat
    var eof: bool

    ghost predicate Valid()
      reads this
    {
      pos <= |content|
    }

    constructor (content: string)
      ensures Valid() && this.content == content && pos == 0 && !eof
    {
      this.content := content;
      pos, eof := 0, false;
    }

    method Fgetc() returns (ch: int)
      requires Valid()
      modifies this
      ensures Valid()
      ensures old(pos) < |content| ==> ch == content[old(pos)] as int && pos == old(pos) + 1 && eof == old(eof)
      ensures old(pos) == |content| ==> ch == EOF && pos == old(pos) && eof
    {
      if pos == |content| {
        eof := true;
        return EOF;
      }
      ch := content[pos] as int;
      pos := pos + 1;
    }

    /** `ungetc` of the character just read; pushing back EOF has no effect. */
    method Ungetc(ch: int)
      requires Valid()
      requires ch != EOF ==> pos > 0 && ch == content[pos - 1] as int
      modifies this
      ensures Valid()
      ensures ch != EOF ==> pos == old(pos) - 1 && !eof
      ensures ch == EOF ==> pos == old(pos) && eof == old(eof)
    {
      if ch != EOF {
        pos := pos - 1;
        eof := false;
      }
    }

    /** `skip_to_next_line` */
    method SkipToNextLine() returns (ch: int)
      requires Valid()
      modifies this
      ensures Valid() && pos == NextLine(content, old(pos))
      ensures LineEnd(content, old(pos)) < |content| ==> ch == '\n' as int && eof == old(eof)
      ensures LineEnd(content, old(pos)) == |content| ==> ch == EOF && eof
    {
      ch := Fgetc();
      while ch != EOF && ch != '\n' as int
        invariant Valid()
        invariant ch == EOF ==> pos == |content| && LineEnd(content, old(pos)) == |content| && eof
        invariant ch != EOF ==> pos > old(pos) && ch == content[pos - 1] as int && eof == old(eof)
        invariant ch != EOF ==> LineEnd(content, old(pos)) == LineEnd(content, pos - 1)
        decreases |content| - pos, ch != EOF
      {
        ch := Fgetc();
      }
    }

    /** `skip_comments` */
    method SkipComments()
      requires Valid()
      modifies this
      ensures Valid() && pos == PastComments(content, old(pos))
      ensures PastComments(content, old(pos)) < |content| ==> !eof
      ensures PastComments(content, old(pos)) == |content| ==> eof
    {
      var ch := Fgetc();
      while ch == '#' as int
        invariant Valid()
        invariant ch == EOF ==> pos == |content| && PastComments(content, old(pos)) == |content| && eof
        invariant ch != EOF ==> pos > 0 && ch == content[pos - 1] as int
        invariant ch != EOF ==> PastComments(content, old(pos)) == PastComments(content, pos - 1)
        decreases |content| - pos, ch != EOF
      {
        var _ := SkipToNextLine();
        ch := Fgetc();
      }
      Ungetc(ch);
    }

    /** The white space that a conversion skips. */
    method SkipBlanks()
      requires Valid()
      modifies this
      ensures Valid() && pos == BlanksEnd(content, old(pos))
      ensures eof == (pos == |content|)
    {
      var ch := Fgetc();
      while ch != EOF && IsSpace(ch as char)
        invariant Valid()
        invariant ch != EOF ==> pos > 0 && ch == content[pos - 1] as int
        invariant ch != EOF ==> BlanksEnd(content, old(pos)) == BlanksEnd(content, pos - 1)
        invariant ch == EOF ==> pos == |content| == BlanksEnd(content, old(pos)) && eof
        decreases |content| - pos, ch != EOF
      {
        ch := Fgetc();
      }
      Ungetc(ch);
    }

    /** `fscanf(fstream, "%*s,")`: skip white space, a token, and a comma if one follows. */
    method SkipField()
      requires Valid()
      modifies this
      ensures Valid()
      ensures pos == TokenEnd(content, BlanksEnd(content, old(pos)))
      ensures eof == (pos == |content|)
    {
      SkipBlanks();
      var ch := Fgetc();
      while ch != EOF && !IsSpace(ch as char)
        invariant Valid()
        invariant ch != EOF ==> pos > 0 && ch == content[pos - 1] as int
        invariant ch != EOF ==> TokenEnd(content, BlanksEnd(content, old(pos))) == TokenEnd(content, pos - 1)
        invariant ch == EOF ==> pos == |content| == TokenEnd(content, BlanksEnd(content, old(pos))) && eof
        decreases |content| - pos, ch != EOF
      {
        ch := Fgetc();
      }
      Ungetc(ch);
      if ch != EOF {
        ch := Fgetc();
        if ch != ',' as int {
          Ungetc(ch);
        }
      }
    }

    /** `fscanf(fstream, "%lf", ...)`: at the end of the file there is no number. */
    method ScanNumber<T>(scan: string -> Number<T>) returns (n: Number<T>)
      requires Valid()
      modifies this
      ensures Valid() && n == NumberAt(content, old(pos), scan)
      ensures n.Number? ==> pos == AfterNumber(content, old(pos), n) && eof == (pos == |content|)
    {
      SkipBlanks();
      if pos == |content| {
        return NoNumber;
      }
      var end := TokenEnd(content, pos);
      n := scan(content[pos..end]);
      if n.Number? {
        pos := Min(pos + n.consumed, end);
        eof := pos == |content|;
      }
    }
  }

  // ----- get_exec_times -----

  datatype Outcome<T> =
    | BailOut            // the file cannot be opened or rewound, or memory is short
    | InvalidTime(job: nat)
    | AssertionFails
    | Loaded(times: seq<T>)
  {
    function Prepend(ts: seq<T>): Outcome<T> {
      if Loaded? then Loaded(ts + times) else this
    }
  }

  /** Where the wanted column of the job that starts at `pos` is looked for. */
  function ColumnAt(c: string, pos: nat, column: int): (q: nat)
    requires pos <= |c|
    ensures q <= |c|
  {
    PastFields(c, PastComments(c, pos), Index(column))
  }

  /** What the second pass does for the last `left` jobs, on every file. */
  function SecondPass<T>(c: string, pos: nat, eof: bool, left: nat, job: nat, column: int,
                         scan: string -> Number<T>): Outcome<T>
    requires pos <= |c|
    decreases left
  {
    if left == 0 then Loaded([])
    else if eof then AssertionFails
    else
      var p := ColumnAt(c, pos, column);
      var n := NumberAt(c, p, scan);
      if n.NoNumber? then InvalidTime(job)
      else
        var at := AfterNumber(c, p, n);
        SecondPass(c, NextLine(c, at), LineEnd(c, at) == |c|, left - 1, job + 1, column, scan).Prepend([n.value])
  }

  /** Skipping comments skips no data line. */
  lemma {:induction false} CommentsHoldNoData(c: string, p: nat)
    requires p <= |c|
    ensures DataLines(c, PastComments(c, p)) == DataLines(c, p)
    decreases |c| - p
  {
    if p < |c| && c[p] == '#' {
      CommentsHoldNoData(c, NextLine(c, p));
      if LineEnd(c, p) == |c| {
        assert DataLines(c, |c|) == [];
      }
    }
  }

  lemma {:induction false} BlanksEndIs(c: string, p: nat, q: nat)
    requires p <= q < |c| && !IsSpace(c[q])
    requires forall k :: p <= k < q ==> IsSpace(c[k])
    ensures BlanksEnd(c, p) == q
    decreases q - p
  {
    if p < q {
      BlanksEndIs(c, p + 1, q);
    }
  }

  lemma BlanksInFile(c: string, a: nat, b: nat, p: nat)
    requires a <= b < |c| && p <= b - a && BlanksEnd(c[a..b], p) < b - a
    ensures BlanksEnd(c, a + p) == a + BlanksEnd(c[a..b], p)
  {
    var line := c[a..b];
    var q := BlanksEnd(line, p);
    forall k | a + p <= k < a + q ensures IsSpace(c[k]) {
      assert c[k] == line[k - a];
    }
    BlanksEndIs(c, a + p, a + q);
  }

  lemma TokenInFile(c: string, a: nat, b: nat, q: nat)
    requires a <= b < |c| && c[b] == '\n' && q <= b - a
    ensures TokenEnd(c, a + q) == a + TokenEnd(c[a..b], q)
  {
    var line := c[a..b];
    var e := TokenEnd(line, q);
    forall k | a + q <= k < a + e ensures !IsSpace(c[k]) {
      assert c[k] == line[k - a];
    }
    TokenEndAt(c, a + q, a + e);
  }

  lemma SliceOfSlice(c: string, a: nat, b: nat, q: nat, e: nat)
    requires a <= b <= |c| && q <= e <= b - a
    ensures c[a + q..a + e] == c[a..b][q..e]
  {
    var line := c[a..b];
    assert forall k :: 0 <= k < e - q ==> c[a + q..a + e][k] == line[q..e][k];
  }

  lemma DropOneMore<X>(s: seq<X>, k: nat)
    requires k < |s|
    ensures s[k..] != [] && s[k..][1..] == s[k + 1..]
  {
  }

  /** A field of the line `c[a..b]` is found at the same place in the file. */
  lemma FieldInFile(c: string, a: nat, b: nat, p: nat)
    requires a <= b < |c| && c[b] == '\n' && p <= b - a
    requires FieldsFrom(c[a..b], p) != []
    ensures var line := c[a..b];
      var q := BlanksEnd(line, p);
      var e := TokenEnd(line, q);
      && BlanksEnd(c, a + p) == a + q < b
      && TokenEnd(c, a + q) == a + e <= b
      && c[a + q..a + e] == FieldsFrom(line, p)[0]
      && FieldsFrom(line, e) == FieldsFrom(line, p)[1..]
  {
    hide BlanksEnd, TokenEnd;
    var line := c[a..b];
    var q := BlanksEnd(line, p);
    BlanksInFile(c, a, b, p);
    TokenInFile(c, a, b, q);
    SliceOfSlice(c, a, b, q, TokenEnd(line, q));
  }

  /** Every line that is counted has a number in the wanted column. */
  ghost predicate AllHaveTimes<T>(lines: seq<string>, column: int, scan: string -> Number<T>) {
    forall i :: 0 <= i < |lines| ==> HasTime(lines[i], column, scan)
  }

  function TimeOf<T>(line: string, column: int, scan: string -> Number<T>): T
    requires HasTime(line, column, scan)
  {
    scan(Fields(line)[Index(column)]).value
  }

  lemma TimeInColumn<T>(line: string, column: int, scan: string -> Number<T>)
    requires HasTime(line, column, scan)
    ensures column >= 1 ==> column <= |Fields(line)| && TimeOf(line, column, scan) == scan(Fields(line)[column - 1]).value
  {
  }

  /** The first data line from the line start `p` on. */
  lemma FirstDataLine(c: string, p: nat)
    requires p <= |c|
    ensures var a := PastComments(c, p);
      DataLines(c, p) == if LineEnd(c, a) == |c| then []
                         else [c[a..LineEnd(c, a)]] + DataLines(c, LineEnd(c, a) + 1)
  {
    CommentsHoldNoData(c, p);
  }

  /** The first pass: the number of data lines, whatever they hold. */
  method CountJobs(fstream: Stream) returns (numJobs: nat)
    requires fstream.Valid() && fstream.pos == 0
    modifies fstream
    ensures fstream.Valid()
    ensures numJobs == |DataLines(fstream.content, 0)|
  {
    hide DataLines, LineEnd, PastComments;
    numJobs := 0;
    var ch := 0;
    ghost var c := fstream.content;
    while ch != EOF
      invariant fstream.Valid()
      invariant ch != EOF ==> numJobs + |DataLines(c, fstream.pos)| == |DataLines(c, 0)|
      invariant ch == EOF ==> numJobs == |DataLines(c, 0)|
      decreases |c| - fstream.pos, ch != EOF
    {
      FirstDataLine(c, fstream.pos);
      fstream.SkipComments();
      ch := fstream.SkipToNextLine();
      if ch != EOF {
        numJobs := numJobs + 1;
      }
    }
  }

  /** In the line `c[a..b]`, `k` fields lie before `pos`, and all others after it. */
  ghost predicate AtField(c: string, a: nat, b: nat, k: nat, pos: nat): (r: bool)
    ensures r ==> a <= pos <= b < |c|
  {
    && a <= pos <= b < |c| && c[b] == '\n'
    && k < |Fields(c[a..b])|
    && FieldsFrom(c[a..b], pos - a) == Fields(c[a..b])[k..]
  }

  lemma AtNextField(c: string, a: nat, b: nat, k: nat, pos: nat)
    requires AtField(c, a, b, k, pos) && k + 1 < |Fields(c[a..b])|
    ensures AtField(c, a, b, k + 1, TokenEnd(c, BlanksEnd(c, pos)))
  {
    hide Fields, FieldsFrom, BlanksEnd, TokenEnd;
    DropOneMore(Fields(c[a..b]), k);
    FieldInFile(c, a, b, pos - a);
  }

  lemma {:induction false} AtLaterField(c: string, a: nat, b: nat, k: nat, pos: nat, j: nat)
    requires AtField(c, a, b, k, pos) && k + j < |Fields(c[a..b])|
    ensures AtField(c, a, b, k + j, PastFields(c, pos, j))
    decreases j
  {
    hide AtField, Fields, BlanksEnd, TokenEnd;
    if j > 0 {
      AtNextField(c, a, b, k, pos);
      AtLaterField(c, a, b, k + 1, TokenEnd(c, BlanksEnd(c, pos)), j - 1);
    }
  }

  lemma FieldAt(c: string, a: nat, b: nat, k: nat, pos: nat)
    requires AtField(c, a, b, k, pos)
    ensures var q := BlanksEnd(c, pos);
      q < TokenEnd(c, q) <= b && c[q..TokenEnd(c, q)] == Fields(c[a..b])[k]
  {
    hide Fields, FieldsFrom, BlanksEnd, TokenEnd;
    DropOneMore(Fields(c[a..b]), k);
    FieldInFile(c, a, b, pos - a);
  }

  /** Discard fields until the wanted column is next. */
  method SkipColumns(fstream: Stream, column: int)
    requires fstream.Valid()
    modifies fstream
    ensures fstream.Valid() && fstream.pos == PastFields(fstream.content, old(fstream.pos), Index(column))
  {
    hide BlanksEnd, TokenEnd;
    ghost var c, a := fstream.content, fstream.pos;
    var col := 1;
    while col < column
      invariant fstream.Valid()
      invariant 1 <= col && col - 1 <= Index(column)
      invariant PastFields(c, a, Index(column)) == PastFields(c, fstream.pos, Index(column) - (col - 1))
    {
      fstream.SkipField();
      col := col + 1;
    }
  }

  /** One job of the second pass. */
  method ReadJob<T>(fstream: Stream, column: int, scan: string -> Number<T>) returns (n: Number<T>)
    requires fstream.Valid()
    modifies fstream
    ensures fstream.Valid()
    ensures var c, p := fstream.content, ColumnAt(fstream.content, old(fstream.pos), column);
      && n == NumberAt(c, p, scan)
      && (n.Number? ==> fstream.pos == NextLine(c, AfterNumber(c, p, n))
                        && fstream.eof == (LineEnd(c, AfterNumber(c, p, n)) == |c|))
  {
    hide PastComments, LineEnd, PastFields, BlanksEnd, TokenEnd;
    fstream.SkipComments();
    SkipColumns(fstream, column);
    n := fstream.ScanNumber(scan);
    if n.Number? {
      var _ := fstream.SkipToNextLine();
    }
  }

  lemma FirstDataLineStarts(c: string, p: nat)
    requires p <= |c| && DataLines(c, p) != []
    ensures var a := PastComments(c, p);
      var b := LineEnd(c, a);
      b < |c| && DataLines(c, p)[0] == c[a..b] && DataLines(c, p)[1..] == DataLines(c, b + 1)
  {
    hide DataLines, PastComments;
    FirstDataLine(c, p);
  }

  /** When only white space is left in the line, the next token lies behind its newline. */
  lemma NoFieldLeft(c: string, a: nat, b: nat, p: nat)
    requires a <= p <= b < |c| && c[b] == '\n' && FieldsFrom(c[a..b], p - a) == []
    ensures BlanksEnd(c, p) > b
  {
    var line := c[a..b];
    assert BlanksEnd(line, p - a) == |line|;
    forall k | p <= k <= b ensures IsSpace(c[k]) {
      assert k < b ==> c[k] == line[k - a];
    }
  }

  /** One token further: behind the newline, or one field fewer in the line. */
  lemma OneFieldFewer(c: string, a: nat, b: nat, p: nat)
    requires a <= p <= b < |c| && c[b] == '\n'
    ensures var q := BlanksEnd(c, p);
      var e := TokenEnd(c, q);
      if FieldsFrom(c[a..b], p - a) == [] then q > b
      else a <= e <= b && |FieldsFrom(c[a..b], e - a)| == |FieldsFrom(c[a..b], p - a)| - 1
  {
    hide FieldsFrom, BlanksEnd, TokenEnd;
    if FieldsFrom(c[a..b], p - a) == [] {
      NoFieldLeft(c, a, b, p);
    } else {
      FieldInFile(c, a, b, p - a);
    }
  }

  /** Skipping at least as many tokens as the line has left leads behind its newline. */
  lemma {:induction false} RunsOutOfFields(c: string, a: nat, b: nat, p: nat, j: nat)
    requires a <= b < |c| && c[b] == '\n' && a <= p <= |c|
    requires p <= b ==> |FieldsFrom(c[a..b], p - a)| <= j
    ensures BlanksEnd(c, PastFields(c, p, j)) > b
    decreases j
  {
    hide FieldsFrom, BlanksEnd, TokenEnd;
    if p <= b {
      OneFieldFewer(c, a, b, p);
    }
    if j > 0 {
      RunsOutOfFields(c, a, b, TokenEnd(c, BlanksEnd(c, p)), j - 1);
    }
  }

  lemma AtFirstField(c: string, a: nat, b: nat)
    requires a <= b < |c| && c[b] == '\n' && Fields(c[a..b]) != []
    ensures AtField(c, a, b, 0, a)
  {
  }

  lemma NumberOfColumn<T>(c: string, a: nat, b: nat, k: nat, scan: string -> Number<T>)
    requires a <= b < |c| && c[b] == '\n' && k < |Fields(c[a..b])|
    ensures var at := PastFields(c, a, k);
      var n := NumberAt(c, at, scan);
      n == scan(Fields(c[a..b])[k]) && (n.Number? ==> a <= AfterNumber(c, at, n) <= b)
  {
    hide Fields, AtField, PastFields, BlanksEnd, TokenEnd;
    AtFirstField(c, a, b);
    AtLaterField(c, a, b, 0, a, k);
    FieldAt(c, a, b, k, PastFields(c, a, k));
  }

  lemma NumberBehindLine<T>(c: string, a: nat, b: nat, k: nat, scan: string -> Number<T>)
    requires a <= b < |c| && c[b] == '\n' && k >= |Fields(c[a..b])|
    ensures var at := PastFields(c, a, k);
      var n := NumberAt(c, at, scan);
      n.Number? ==> AfterNumber(c, at, n) > b
  {
    hide FieldsFrom, PastFields, BlanksEnd, TokenEnd;
    RunsOutOfFields(c, a, b, a, k);
  }

  /** A number is read inside the line `c[a..b]` if and only if the line has one in the wanted column. */
  lemma NumberInLine<T>(c: string, a: nat, b: nat, column: int, scan: string -> Number<T>)
    requires a <= b < |c| && c[b] == '\n'
    ensures var at := PastFields(c, a, Index(column));
      var n := NumberAt(c, at, scan);
      && (HasTime(c[a..b], column, scan) <==> n.Number? && AfterNumber(c, at, n) <= b)
      && (HasTime(c[a..b], column, scan) ==> n.value == TimeOf(c[a..b], column, scan) && AfterNumber(c, at, n) >= a)
  {
    hide Fields, PastFields, NumberAt, AfterNumber;
    var k := Index(column);
    if k < |Fields(c[a..b])| {
      NumberOfColumn(c, a, b, k, scan);
    } else {
      NumberBehindLine(c, a, b, k, scan);
    }
  }

  lemma {:induction false} SameLineEnd(c: string, a: nat, at: nat)
    requires a <= |c| && a <= at <= LineEnd(c, a)
    ensures LineEnd(c, at) == LineEnd(c, a)
    decreases at - a
  {
    if a < at {
      SameLineEnd(c, a + 1, at);
    }
  }

  /**
   The job that starts at `p`, where a data line follows, reads its number inside that
   line if and only if the line has a number in the wanted column.  Then it is that
   number, and the stream moves to the next line.
   */
  lemma JobReadsLine<T>(c: string, p: nat, column: int, scan: string -> Number<T>)
    requires p <= |c| && DataLines(c, p) != []
    ensures var lines := DataLines(c, p);
      var at := ColumnAt(c, p, column);
      var n := NumberAt(c, at, scan);
      && (HasTime(lines[0], column, scan) <==> n.Number? && AfterNumber(c, at, n) <= LineEnd(c, PastComments(c, p)))
      && (HasTime(lines[0], column, scan) ==>
            && n.value == TimeOf(lines[0], column, scan)
            && var next := AfterNumber(c, at, n);
               LineEnd(c, next) < |c| && DataLines(c, NextLine(c, next)) == lines[1..])
  {
    hide DataLines, PastComments, LineEnd, HasTime, TimeOf, PastFields, NumberAt, AfterNumber;
    var a := PastComments(c, p);
    FirstDataLineStarts(c, p);
    NumberInLine(c, a, LineEnd(c, a), column, scan);
    if HasTime(DataLines(c, p)[0], column, scan) {
      var at := PastFields(c, a, Index(column));
      SameLineEnd(c, a, AfterNumber(c, at, NumberAt(c, at, scan)));
    }
  }

  /** Each of the next `left` jobs reads its number inside the line at which it starts. */
  ghost predicate ReadsOwnLines<T>(c: string, pos: nat, left: nat, column: int, scan: string -> Number<T>)
    requires pos <= |c|
    decreases left
  {
    left == 0 ||
    var at := ColumnAt(c, pos, column);
    var n := NumberAt(c, at, scan);
    && n.Number? && AfterNumber(c, at, n) <= LineEnd(c, PastComments(c, pos))
    && ReadsOwnLines(c, NextLine(c, AfterNumber(c, at, n)), left - 1, column, scan)
  }

  /** For every file: every job reads its number inside its own data line if and only if all data lines have one. */
  lemma {:induction false} OwnLinesExactly<T>(c: string, pos: nat, column: int, scan: string -> Number<T>)
    requires pos <= |c|
    ensures ReadsOwnLines(c, pos, |DataLines(c, pos)|, column, scan) <==> AllHaveTimes(DataLines(c, pos), column, scan)
    decreases |DataLines(c, pos)|
  {
    hide DataLines, LineEnd, PastComments, HasTime, TimeOf, NumberAt, AfterNumber, ColumnAt, NextLine;
    var lines := DataLines(c, pos);
    if lines != [] {
      JobReadsLine(c, pos, column, scan);
      assert AllHaveTimes(lines, column, scan) <==>
             HasTime(lines[0], column, scan) && AllHaveTimes(lines[1..], column, scan) by {
        assert lines == [lines[0]] + lines[1..];
      }
      if HasTime(lines[0], column, scan) {
        var at := ColumnAt(c, pos, column);
        OwnLinesExactly(c, NextLine(c, AfterNumber(c, at, NumberAt(c, at, scan))), column, scan);
      }
    }
  }

  /**
   The two passes agree: if every data line has a number in the wanted column, the
   second pass, told the number of data lines, loads exactly these numbers in order
   and ends without a failure; an unterminated last line does not matter.
   */
  lemma {:induction false} PassesAgree<T>(c: string, pos: nat, job: nat, column: int, scan: string -> Number<T>)
    requires pos <= |c| && AllHaveTimes(DataLines(c, pos), column, scan)
    ensures var lines := DataLines(c, pos);
      var r := SecondPass(c, pos, false, |lines|, job, column, scan);
      && r.Loaded? && |r.times| == |lines|
      && forall i :: 0 <= i < |lines| ==>
           && r.times[i] == TimeOf(lines[i], column, scan)
           && (column >= 1 ==> column <= |Fields(lines[i])| && r.times[i] == scan(Fields(lines[i])[column - 1]).value)
    decreases |DataLines(c, pos)|
  {
    hide DataLines, LineEnd, HasTime, TimeOf, NumberAt, AfterNumber, ColumnAt, NextLine, Fields;
    var lines := DataLines(c, pos);
    if lines != [] {
      assert HasTime(lines[0], column, scan);
      JobReadsLine(c, pos, column, scan);
      var at := ColumnAt(c, pos, column);
      var next := NextLine(c, AfterNumber(c, at, NumberAt(c, at, scan)));
      assert lines == [lines[0]] + lines[1..];
      TimeInColumn(lines[0], column, scan);
      PassesAgree(c, next, job + 1, column, scan);
    }
  }

  lemma PrependTwice<T>(o: Outcome<T>, ts: seq<T>, t: T)
    ensures o.Prepend([t]).Prepend(ts) == o.Prepend(ts + [t])
  {
    if o.Loaded? {
      assert ts + ([t] + o.times) == (ts + [t]) + o.times;
    }
  }

  /** The job that starts at `pos` finds a number. */
  predicate FindsNumber<T>(c: string, pos: nat, column: int, scan: string -> Number<T>)
    requires pos <= |c|
  {
    NumberAt(c, ColumnAt(c, pos, column), scan).Number?
  }

  /** Where its number ends. */
  function NumberEnd<T>(c: string, pos: nat, column: int, scan: string -> Number<T>): (q: nat)
    requires pos <= |c| && FindsNumber(c, pos, column, scan)
    ensures q <= |c|
  {
    var p := ColumnAt(c, pos, column);
    AfterNumber(c, p, NumberAt(c, p, scan))
  }

  /** It finds a number, and the line behind it starts at `next`. */
  predicate LeadsTo<T>(c: string, pos: nat, next: nat, column: int, scan: string -> Number<T>)
    requires pos <= |c|
  {
    FindsNumber(c, pos, column, scan) && next == NextLine(c, NumberEnd(c, pos, column, scan))
  }

  /** It finds a number, and no newline follows, so that the end of the file is met. */
  predicate MeetsEnd<T>(c: string, pos: nat, column: int, scan: string -> Number<T>)
    requires pos <= |c|
  {
    FindsNumber(c, pos, column, scan) && '\n' !in c[NumberEnd(c, pos, column, scan)..]
  }

  /**
   The jobs start at these positions: the first at the beginning of the file, every
   other behind the first newline that follows the number of the job before.  All but
   the last have found a number, and all but the last were begun before the end of
   the file was met.
   */
  ghost predicate JobsStartAt<T>(c: string, starts: seq<nat>, column: int, scan: string -> Number<T>) {
    && starts != [] && starts[0] == 0
    && (forall k :: 0 <= k < |starts| ==> starts[k] <= |c|)
    && (forall k :: 0 <= k < |starts| - 1 ==> LeadsTo(c, starts[k], starts[k + 1], column, scan))
    && (forall k :: 0 <= k < |starts| - 2 ==> !MeetsEnd(c, starts[k], column, scan))
  }

  /** The end of the file was met behind the last number. */
  ghost predicate EndWasMet<T>(c: string, starts: seq<nat>, column: int, scan: string -> Number<T>)
    requires JobsStartAt(c, starts, column, scan)
  {
    |starts| > 1 && MeetsEnd(c, starts[|starts| - 2], column, scan)
  }

  lemma NewlineAhead(c: string, p: nat)
    requires p <= |c|
    ensures LineEnd(c, p) < |c| <==> '\n' in c[p..]
  {
    var e := LineEnd(c, p);
    if e < |c| {
      assert c[p..][e - p] == '\n';
    } else {
      assert forall k :: 0 <= k < |c| - p ==> c[p..][k] == c[p + k];
    }
  }

  lemma LeadsToOnePlace<T>(c: string, pos: nat, first: nat, second: nat, column: int, scan: string -> Number<T>)
    requires pos <= |c| && LeadsTo(c, pos, first, column, scan) && LeadsTo(c, pos, second, column, scan)
    ensures first == second
  {
  }

  lemma JobLeads<T>(c: string, pos: nat, column: int, scan: string -> Number<T>)
    requires pos <= |c| && NumberAt(c, ColumnAt(c, pos, column), scan).Number?
    ensures var p := ColumnAt(c, pos, column);
      var end := AfterNumber(c, p, NumberAt(c, p, scan));
      && LeadsTo(c, pos, NextLine(c, end), column, scan)
      && (MeetsEnd(c, pos, column, scan) <==> LineEnd(c, end) == |c|)
  {
    hide ColumnAt, NumberAt, AfterNumber, NextLine, LineEnd;
    NewlineAhead(c, NumberEnd(c, pos, column, scan));
    assert LineEnd(c, NumberEnd(c, pos, column, scan)) <= |c|;
  }

  /** These positions are determined by the file. */
  lemma {:induction false} StartsAreUnique<T>(c: string, first: seq<nat>, second: seq<nat>, column: int,
                                              scan: string -> Number<T>)
    requires JobsStartAt(c, first, column, scan) && JobsStartAt(c, second, column, scan)
    requires |first| <= |second|
    ensures first == second[..|first|]
  {
    hide LeadsTo, MeetsEnd;
    for k := 0 to |first|
      invariant first[..k] == second[..k]
    {
      if k > 0 {
        assert first[k - 1] == first[..k][k - 1] == second[..k][k - 1];
        assert LeadsTo(c, first[k - 1], first[(k - 1) + 1], column, scan);
        assert LeadsTo(c, second[k - 1], second[(k - 1) + 1], column, scan);
        LeadsToOnePlace(c, first[k - 1], first[k], second[k], column, scan);
      }
    }
  }

  lemma OneJobMore<T>(c: string, starts: seq<nat>, next: nat, column: int, scan: string -> Number<T>)
    requires JobsStartAt(c, starts, column, scan) && !EndWasMet(c, starts, column, scan)
    requires next <= |c| && LeadsTo(c, starts[|starts| - 1], next, column, scan)
    ensures JobsStartAt(c, starts + [next], column, scan)
    ensures EndWasMet(c, starts + [next], column, scan) <==> MeetsEnd(c, starts[|starts| - 1], column, scan)
  {
    hide LeadsTo, MeetsEnd;
  }

  lemma NoJobYet<T>(c: string, column: int, scan: string -> Number<T>)
    ensures JobsStartAt(c, [0], column, scan) && !EndWasMet(c, [0], column, scan)
  {
  }

  /**
   `get_exec_times`, for every file: the number of jobs is the number of data lines,
   and the second pass determines the outcome.  It loads one time for every job, the
   number that the job finds; or reports the job that finds no number; or stops when
   the end of the file was met behind a number and jobs are left.
   */
  method GetExecTimes<T(0)>(file: Option<string>, column: int, seekWorks: bool, memoryAvailable: bool,
                            scan: string -> Number<T>) returns (r: Outcome<T>, numJobs: nat, ghost starts: seq<nat>)
    ensures file.None? ==> numJobs == 0
    ensures file.Some? ==> numJobs == |DataLines(file.value, 0)|
    ensures r.BailOut? <==> file.None? || !seekWorks || !memoryAvailable
    ensures !r.BailOut? ==> r == SecondPass(file.value, 0, false, numJobs, 0, column, scan)
    ensures !r.BailOut? ==>
      && JobsStartAt(file.value, starts, column, scan) && |starts| <= numJobs + 1
      && var last := |starts| - 1;
         && (r.Loaded? <==> last == numJobs)
         && (forall i: nat :: r == InvalidTime(i) <==>
               i == last < numJobs && !EndWasMet(file.value, starts, column, scan)
               && !FindsNumber(file.value, starts[last], column, scan))
         && (r.AssertionFails? <==> last < numJobs && EndWasMet(file.value, starts, column, scan))
    ensures r.Loaded? ==>
      && |r.times| == numJobs
      && forall i :: 0 <= i < numJobs ==>
           NumberAt(file.value, ColumnAt(file.value, starts[i], column), scan).Number?
           && r.times[i] == NumberAt(file.value, ColumnAt(file.value, starts[i], column), scan).value
  {
    hide DataLines, NumberAt, AfterNumber, ColumnAt, LineEnd, NextLine, JobsStartAt, EndWasMet, LeadsTo, MeetsEnd;
    numJobs, starts := 0, [0];
    if file.None? {
      return BailOut, numJobs, starts;
    }
    var fstream := new Stream(file.value);
    numJobs := CountJobs(fstream);
    if !seekWorks {
      return BailOut, numJobs, starts;
    }
    fstream.pos, fstream.eof := 0, false;
    if !memoryAvailable {
      return BailOut, numJobs, starts;
    }
    var times := new T[numJobs];
    ghost var c := file.value;
    ghost var expected := SecondPass(c, 0, false, numJobs, 0, column, scan);
    NoJobYet(c, column, scan);

    var job := 0;
    while job < numJobs && !fstream.eof
      invariant fstream.Valid() && fstream.content == c
      invariant 0 <= job <= numJobs
      invariant expected ==
                SecondPass(c, fstream.pos, fstream.eof, numJobs - job, job, column, scan).Prepend(times[..job])
      invariant |starts| == job + 1 && starts[job] == fstream.pos && JobsStartAt(c, starts, column, scan)
      invariant fstream.eof <==> EndWasMet(c, starts, column, scan)
      invariant forall i :: 0 <= i < job ==>
        starts[i] <= |c|
        && NumberAt(c, ColumnAt(c, starts[i], column), scan).Number?
        && times[i] == NumberAt(c, ColumnAt(c, starts[i], column), scan).value
    {
      ghost var before := times[..job];
      var n := ReadJob(fstream, column, scan);
      if n.NoNumber? {
        return InvalidTime(job), numJobs, starts;
      }
      times[job] := n.value;
      assert times[..job + 1] == before + [n.value];
      PrependTwice(SecondPass(c, fstream.pos, fstream.eof, numJobs - job - 1, job + 1, column, scan),
                   before, n.value);
      JobLeads(c, starts[job], column, scan);
      OneJobMore(c, starts, fstream.pos, column, scan);
      starts := starts + [fstream.pos];
      job := job + 1;
    }
    if job != numJobs {
      return AssertionFails, numJobs, starts;
    }
    assert times[..] == times[..job] + [];
    r := Loaded(times[..]);
  }

  /**
   An empty line is counted as a job, but white space is skipped across it: the file
   of an empty line and a line with one number counts two jobs and loads none.
   */
  lemma BlankLineBreaksAgreement<T>(scan: string -> Number<T>, v: T)
    requires scan("5") == Number(v, 1)
    ensures DataLines("\n5\n", 0) == ["", "5"]
    ensures SecondPass("\n5\n", 0, false, 2, 0, 1, scan) == InvalidTime(1)
  {
    var c := "\n5\n";
    assert LineEnd(c, 0) == 0 && LineEnd(c, 1) == 2 && LineEnd(c, 2) == 2 && LineEnd(c, 3) == 3;
    assert DataLines(c, 3) == [];
    assert DataLines(c, 1) == [c[1..2]] + DataLines(c, 3);
    assert c[0..0] == "" && c[1..2] == "5";
    assert BlanksEnd(c, 0) == 1 && TokenEnd(c, 1) == 2;
    assert BlanksEnd(c, 3) == 3;
    assert ColumnAt(c, 0, 1) == 0 && NumberAt(c, 0, scan) == Number(v, 1);
    assert AfterNumber(c, 0, Number(v, 1)) == 2 && NextLine(c, 2) == 3;
    assert ColumnAt(c, 3, 1) == 3;
    assert SecondPass(c, 3, false, 1, 1, 1, scan) == InvalidTime(1);
  }

  /**
   A second pass that loads all jobs proves nothing by itself: here the numbers 5 and 6
   are loaded for an empty line and for the line that holds the 5.
   */
  lemma LoadedIsNotEnough<T>(scan: string -> Number<T>, v: T, w: T)
    requires scan("5") == Number(v, 1) && scan("6") == Number(w, 1)
    ensures DataLines("\n5\n6", 0) == ["", "5"]
    ensures SecondPass("\n5\n6", 0, false, 2, 0, 1, scan) == Loaded([v, w])
  {
    var c := "\n5\n6";
    assert LineEnd(c, 0) == 0 && LineEnd(c, 1) == 2 && LineEnd(c, 2) == 2 && LineEnd(c, 3) == 4 && LineEnd(c, 4) == 4;
    assert DataLines(c, 3) == [];
    assert DataLines(c, 1) == [c[1..2]] + DataLines(c, 3);
    assert c[0..0] == "" && c[1..2] == "5" && c[3..4] == "6";
    assert BlanksEnd(c, 0) == 1 && TokenEnd(c, 1) == 2;
    assert BlanksEnd(c, 3) == 3 && TokenEnd(c, 3) == 4;
    assert ColumnAt(c, 0, 1) == 0 && NumberAt(c, 0, scan) == Number(v, 1);
    assert AfterNumber(c, 0, Number(v, 1)) == 2 && NextLine(c, 2) == 3;
    assert ColumnAt(c, 3, 1) == 3 && NumberAt(c, 3, scan) == Number(w, 1);
    assert AfterNumber(c, 3, Number(w, 1)) == 4;
    assert SecondPass(c, 3, false, 1, 1, 1, scan) == Loaded([w]);
  }

  // ----- Commas do not separate columns -----

  /**
   The token that "%*s," skips ends at white space only, so the comma after it never
   matches: a line without white space has one field, however many commas it holds.
   */
  lemma NoBlanksOneField(line: string)
    requires forall i :: 0 <= i < |line| ==> !IsSpace(line[i])
    ensures Fields(line) == if line == [] then [] else [line]
  {
    if line != [] {
      var e := TokenEnd(line, 0);
      assert BlanksEnd(line, 0) == 0 && e == |line|;
      assert line[0..e] == line;
      assert BlanksEnd(line, e) == e && FieldsFrom(line, e) == [];
    }
  }

  /** No column but the first can be read from such a line. */
  lemma CommasSelectNoColumn<T>(line: string, column: int, scan: string -> Number<T>)
    requires forall i :: 0 <= i < |line| ==> !IsSpace(line[i])
    requires column >= 2
    ensures !HasTime(line, column, scan)
  {
    NoBlanksOneField(line);
  }
}
