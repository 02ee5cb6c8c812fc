/**
 The text of the files /proc/litmus/domains/N and /proc/litmus/cpus/N:
 `<mask>[,<mask>]*`, hexadecimal, most significant group first.  All groups after
 a comma have eight digits, the first one has between one and eight.

 The module gives the format (`WellFormed`), its meaning (the positional value of
 the digits), a printer, and what a right-to-left scan of the text collects.
 */
module MaskText {
  import opened Bits
  import opened CLib

  // ----- Hexadecimal digits and positional value -----

  predicate IsHex(c: char) {
    '0' <= c <= '9' || 'a' <= c <= 'f' || 'A' <= c <= 'F'
  }

  function HexDigit(c: char): (d: nat)
    requires IsHex(c)
    ensures d < 16
  {
    if '0' <= c <= '9' then (c - '0') as nat
    else if 'a' <= c <= 'f' then 10 + (c - 'a') as nat
    else 10 + (c - 'A') as nat
  }

  function HexChar(d: nat): (c: char)
    requires d < 16
    ensures IsHex(c) && HexDigit(c) == d
  {
    if d < 10 then '0' + d as char else 'a' + (d - 10) as char
  }

  /** The digits and their values, in lower and in upper case. */
  lemma DigitsInOrder(c: char)
    ensures IsHex(c) <==> c in "0123456789abcdef" || c in "0123456789ABCDEF"
    ensures IsHex(c) ==> "0123456789abcdef"[HexDigit(c)] == c || "0123456789ABCDEF"[HexDigit(c)] == c
    ensures forall d: nat :: d < 16 ==> HexChar(d) == "0123456789abcdef"[d]
  {
    if IsHex(c) {
      assert c == "0123456789abcdef"[HexDigit(c)] || c == "0123456789ABCDEF"[HexDigit(c)];
    }
  }

  predicate AllHex(s: string) {
    forall i :: 0 <= i < |s| ==> IsHex(s[i])
  }

  /** The number that a string of hexadecimal digits denotes. */
  function HexValue(s: string): nat
    requires AllHex(s)
  {
    if s == [] then 0 else 16 * HexValue(s[..|s| - 1]) + HexDigit(s[|s| - 1])
  }

  lemma {:induction false} HexValueBound(s: string)
    requires AllHex(s)
    ensures HexValue(s) < Pow2(4 * |s|)
  {
    if s != [] {
      HexValueBound(s[..|s| - 1]);
      FourBitsMore(0, 4 * |s| - 4);
    }
  }

  lemma {:induction false} HexValueConcat(a: string, b: string)
    requires AllHex(a) && AllHex(b)
    ensures AllHex(a + b)
    ensures HexValue(a + b) == ShiftLeft(HexValue(a), 4 * |b|) + HexValue(b)
    decreases |b|
  {
    if b == [] {
      assert a + b == a;
    } else {
      var b' := b[..|b| - 1];
      assert (a + b)[..|a + b| - 1] == a + b';
      HexValueConcat(a, b');
      FourBitsMore(HexValue(a), 4 * |b'|);
    }
  }

  // ----- The documented format -----

  predicate WellFormed(t: string)
    decreases |t|
  {
    if |t| <= 8 then t != [] && AllHex(t)
    else t[|t| - 9] == ',' && AllHex(t[|t| - 8..]) && WellFormed(t[..|t| - 9])
  }

  /** The format position by position: counted from the end, every ninth character is a comma, and no group is empty. */
  predicate HasGroups(t: string) {
    && 1 <= |t| % 9 <= 8
    && forall i :: 0 <= i < |t| ==> if (|t| - i) % 9 == 0 then t[i] == ',' else IsHex(t[i])
  }

  lemma GroupsWithoutLast(t: string)
    requires |t| > 8
    ensures HasGroups(t) <==> t[|t| - 9] == ',' && AllHex(t[|t| - 8..]) && HasGroups(t[..|t| - 9])
  {
    var n := |t|;
    var head := t[..n - 9];
    assert (n - 9) % 9 == n % 9;
    assert forall i :: 0 <= i < n - 9 ==> head[i] == t[i] && ((n - 9) - i) % 9 == (n - i) % 9;
    assert forall i :: n - 8 <= i < n ==> t[i] == t[n - 8..][i - (n - 8)] && (n - i) % 9 != 0;
    if HasGroups(t) {
      assert (n - (n - 9)) % 9 == 0;
    }
  }

  lemma {:induction false} FormatOfText(t: string)
    ensures WellFormed(t) <==> HasGroups(t)
    decreases |t|
  {
    if |t| > 8 {
      hide HasGroups, AllHex;
      GroupsWithoutLast(t);
      FormatOfText(t[..|t| - 9]);
    }
  }

  function WithoutCommas(t: string): (r: string)
  {
    if t == [] then []
    else WithoutCommas(t[..|t| - 1]) + if t[|t| - 1] == ',' then [] else [t[|t| - 1]]
  }

  lemma {:induction false} WithoutCommasConcat(a: string, b: string)
    ensures WithoutCommas(a + b) == WithoutCommas(a) + WithoutCommas(b)
    decreases |b|
  {
    if b == [] {
      assert a + b == a;
    } else {
      assert (a + b)[..|a + b| - 1] == a + b[..|b| - 1];
      WithoutCommasConcat(a, b[..|b| - 1]);
    }
  }

  lemma {:induction false} WithoutCommasOfHex(t: string)
    requires AllHex(t)
    ensures WithoutCommas(t) == t
  {
    if t != [] {
      WithoutCommasOfHex(t[..|t| - 1]);
      assert t == t[..|t| - 1] + [t[|t| - 1]];
    }
  }

  /** Splitting off the least significant group of a text that has several. */
  lemma WithoutLastGroup(t: string)
    requires |t| > 8 && WellFormed(t)
    ensures WithoutCommas(t) == WithoutCommas(t[..|t| - 9]) + t[|t| - 8..]
  {
    var head, last := t[..|t| - 9], t[|t| - 8..];
    assert WithoutCommas([',']) == [] by { assert [','][..0] == []; }
    assert AllHex(last);
    hide WithoutCommas, WellFormed, AllHex;
    assert t == head + [','] + last;
    WithoutCommasConcat(head + [','], last);
    WithoutCommasConcat(head, [',']);
    WithoutCommasOfHex(last);
  }

  lemma {:induction false} DigitsAreHex(t: string)
    requires WellFormed(t)
    ensures AllHex(WithoutCommas(t))
    decreases |t|
  {
    if |t| <= 8 {
      WithoutCommasOfHex(t);
    } else {
      DigitsAreHex(t[..|t| - 9]);
      WithoutLastGroup(t);
    }
  }

  /** The number a well-formed text denotes: its digits, read as one hexadecimal numeral. */
  function Denoted(t: string): nat
    requires WellFormed(t)
  {
    DigitsAreHex(t);
    HexValue(WithoutCommas(t))
  }

  lemma OneDigit(c: char)
    requires IsHex(c)
    ensures WellFormed([c]) && Denoted([c]) == HexDigit(c)
  {
    var s := [c];
    assert AllHex(s) && WellFormed(s);
    hide HexDigit, IsHex, WithoutCommas, AllHex, WellFormed;
    WithoutCommasOfHex(s);
    assert s[..0] == [];
    assert HexValue(s) == 16 * HexValue(s[..0]) + HexDigit(s[0]);
  }

  /** The closed form for the number of bits in a text of a given length. */
  function BitsInText(len: nat): nat {
    32 * (len / 9) + 4 * (len % 9)
  }

  lemma NineMore(len: nat)
    requires len >= 9
    ensures (len - 9) / 9 == len / 9 - 1 && (len - 9) % 9 == len % 9
  {
  }

  lemma {:induction false} DigitCount(t: string)
    requires WellFormed(t)
    ensures 1 <= |t| % 9 <= 8
    ensures |WithoutCommas(t)| == 8 * (|t| / 9) + |t| % 9
    decreases |t|
  {
    if |t| <= 8 {
      WithoutCommasOfHex(t);
    } else {
      NineMore(|t|);
      DigitCount(t[..|t| - 9]);
      WithoutLastGroup(t);
    }
  }

  /** The closed form is right: it counts four bits a digit, so the denoted number fits. */
  lemma BitCount(t: string)
    requires WellFormed(t)
    ensures BitsInText(|t|) == 4 * |WithoutCommas(t)|
    ensures Denoted(t) < Pow2(BitsInText(|t|))
  {
    DigitCount(t);
    DigitsAreHex(t);
    HexValueBound(WithoutCommas(t));
  }

  // ----- strtoul(s, NULL, 16), section 7.22.1.4 of ISO/IEC 9899:2011 -----

  const ULONG_MAX: nat := 0xFFFF_FFFF_FFFF_FFFF

  function SkipSpaces(s: string): string {
    if s != [] && IsSpace(s[0]) then SkipSpaces(s[1..]) else s
  }

  /** The longest prefix of hexadecimal digits. */
  function HexRun(s: string): (r: string)
    ensures AllHex(r)
  {
    if s == [] || !IsHex(s[0]) then [] else [s[0]] + HexRun(s[1..])
  }

  function SkipSign(s: string): string {
    if s != [] && (s[0] == '+' || s[0] == '-') then s[1..] else s
  }

  function SkipPrefix(s: string): string {
    if |s| >= 3 && s[0] == '0' && (s[1] == 'x' || s[1] == 'X') && IsHex(s[2]) then s[2..] else s
  }

  function StrToUl(s: string): (v: nat)
    ensures v <= ULONG_MAX
  {
    var t := SkipSpaces(s);
    var m := HexValue(HexRun(SkipPrefix(SkipSign(t))));
    if m > ULONG_MAX then ULONG_MAX
    else if t != [] && t[0] == '-' && m > 0 then ULONG_MAX + 1 - m
    else m
  }

  lemma {:induction false} HexRunOfGroup(g: string, rest: string)
    requires AllHex(g)
    requires rest == [] || !IsHex(rest[0])
    ensures HexRun(g + rest) == g
  {
    if g == [] {
      assert g + rest == rest;
    } else {
      assert (g + rest)[1..] == g[1..] + rest;
      HexRunOfGroup(g[1..], rest);
    }
  }

  lemma NothingToSkip(g: string, rest: string)
    requires AllHex(g) && g != []
    requires rest == [] || rest[0] == ',' || rest[0] == '\n'
    ensures var s := g + rest;
            SkipSpaces(s) == s && SkipSign(s) == s && SkipPrefix(s) == s && s[0] != '-'
  {
    var s := g + rest;
    assert s[0] == g[0] && IsHex(g[0]);
    if |s| >= 2 {
      assert s[1] == if |g| >= 2 then g[1] else rest[0];
    }
  }

  lemma GroupFits(g: string)
    requires AllHex(g) && |g| <= 8
    ensures HexValue(g) < Pow2(32) <= ULONG_MAX
  {
    HexValueBound(g);
    Pow2Monotone(4 * |g|, 32);
    WordSizes();
  }

  /** On one group followed by a comma, a newline or the end, strtoul is the positional value. */
  lemma StrToUlOfGroup(g: string, rest: string)
    requires AllHex(g) && 1 <= |g| <= 8
    requires rest == [] || rest[0] == ',' || rest[0] == '\n'
    ensures StrToUl(g + rest) == HexValue(g)
  {
    hide HexRun, HexValue, SkipSpaces, SkipSign, SkipPrefix, Pow2;
    NothingToSkip(g, rest);
    HexRunOfGroup(g, rest);
    GroupFits(g);
  }

  /** White space in front makes no difference. */
  lemma StrToUlSkipsBlanks(c: char, s: string)
    requires IsSpace(c)
    ensures StrToUl([c] + s) == StrToUl(s)
  {
    assert ([c] + s)[1..] == s;
  }

  /** A prefix counts only if a digit follows it. */
  predicate IsNumeral(sign: string, prefix: string, g: string, rest: string) {
    && (sign == "" || sign == "+" || sign == "-")
    && (prefix == "" || prefix == "0x" || prefix == "0X")
    && g != "" && AllHex(g) && (rest == "" || !IsHex(rest[0]))
    && (prefix == "" && g == "0" && |rest| >= 2 && (rest[0] == 'x' || rest[0] == 'X') ==> !IsHex(rest[1]))
  }

  lemma SkipSignOf(sign: string, s: string)
    requires sign == "" || sign == "+" || sign == "-"
    requires s != "" && IsHex(s[0])
    ensures SkipSpaces(sign + s) == sign + s && SkipSign(sign + s) == s
    ensures (sign + s)[0] == '-' <==> sign == "-"
  {
    if sign == "" {
      assert sign + s == s;
    } else {
      assert (sign + s)[1..] == s;
    }
  }

  lemma SkipPrefixOf(prefix: string, g: string, rest: string)
    requires IsNumeral("", prefix, g, rest)
    ensures SkipPrefix(prefix + (g + rest)) == g + rest
  {
    var s := prefix + (g + rest);
    if prefix == "" {
      assert s == g + rest;
      if |g| >= 2 {
        assert s[1] == g[1] && IsHex(s[1]);
      } else if |s| >= 3 {
        assert s[1] == rest[0] && s[2] == rest[1] && s[0] == g[0];
        assert g == [g[0]];
      }
    } else {
      assert s[2..] == g + rest && s[0] == '0' && s[1] == prefix[1];
      assert s[2] == g[0];
    }
  }

  /** The digits `g` that are left give the value, unless it is too large; a minus sign negates it modulo 2^64. */
  lemma StrToUlOfDigits(s: string, g: string)
    requires s != "" && SkipSpaces(s) == s && HexRun(SkipPrefix(SkipSign(s))) == g
    ensures StrToUl(s) == if HexValue(g) > ULONG_MAX then ULONG_MAX
                          else if s[0] == '-' then (ULONG_MAX + 1 - HexValue(g)) % (ULONG_MAX + 1)
                          else HexValue(g)
  {
    hide HexRun, HexValue, SkipSpaces, SkipSign, SkipPrefix, AllHex;
    var m := HexValue(g);
    if 0 < m <= ULONG_MAX {
      assert (ULONG_MAX + 1 - m) % (ULONG_MAX + 1) == ULONG_MAX + 1 - m;
    }
  }

  /** strtoul in general: blanks aside, a sign, a prefix and digits. */
  lemma StrToUlOfNumeral(sign: string, prefix: string, g: string, rest: string)
    requires IsNumeral(sign, prefix, g, rest)
    ensures StrToUl(sign + (prefix + (g + rest))) ==
            if HexValue(g) > ULONG_MAX then ULONG_MAX
            else if sign == "-" then (ULONG_MAX + 1 - HexValue(g)) % (ULONG_MAX + 1)
            else HexValue(g)
  {
    var s := prefix + (g + rest);
    assert s[0] == if prefix == "" then g[0] else '0';
    SkipSignOf(sign, s);
    SkipPrefixOf(prefix, g, rest);
    HexRunOfGroup(g, rest);
    hide *;
    StrToUlOfDigits(sign + s, g);
  }

  // ----- The right-to-left scan -----

  function Clamp(p: int): nat {
    if p < 0 then 0 else p
  }

  /** Bit `x` of a word that was moved up by `32 * i`. */
  predicate BitOfChunk(v: nat, i: nat, x: nat) {
    x >= 32 * i && Bit(v, x - 32 * i)
  }

  /**
   Whether CPU `x` is found by a scan that parses at `p` (or at 0 when `p` is
   negative) for group `i`, then nine characters further left for group `i + 1`,
   and stops when the position falls below -8.
   */
  predicate Scanned(t: string, p: int, i: nat, x: nat)
    requires p <= |t|
    decreases p + 9
  {
    && p >= -8
    && (BitOfChunk(StrToUl(t[Clamp(p)..]), i, x) || Scanned(t, p - 9, i + 1, x))
  }

  lemma ScanStep(t: string, p: int, i: nat, x: nat)
    requires -8 <= p <= |t|
    ensures Scanned(t, p, i, x) <==>
            BitOfChunk(StrToUl(t[Clamp(p)..]), i, x) || (p >= 1 && Scanned(t, p - 9, i + 1, x))
  {
  }

  /** Whether a scan of the whole text, from its end, finds CPU `x`. */
  predicate ScanFinds(t: string, x: nat) {
    Scanned(t, |t| - 8, 0, x)
  }

  /** A word on top of a 32-bit group, as one number. */
  lemma JoinChunks(v: nat, hi: nat, lo: nat, i: nat, x: nat)
    requires lo < Pow2(32) && v == ShiftLeft(hi, 32) + lo
    ensures BitOfChunk(v, i, x) <==> BitOfChunk(lo, i, x) || BitOfChunk(hi, i + 1, x)
  {
    if x >= 32 * i {
      BitSplit(v, hi, lo, 32, x - 32 * i);
      if x >= 32 * i + 32 { NoHighBit(lo, 32, x - 32 * i); }
    }
  }

  /** The denoted number, split before the last group. */
  lemma DenotedSplit(t: string)
    requires |t| > 8 && WellFormed(t)
    ensures Denoted(t) == ShiftLeft(Denoted(t[..|t| - 9]), 32) + HexValue(t[|t| - 8..])
  {
    WithoutLastGroup(t);
    DigitsAreHex(t[..|t| - 9]);
    HexValueConcat(WithoutCommas(t[..|t| - 9]), t[|t| - 8..]);
  }

  lemma DenotedBit(t: string, x: nat)
    requires |t| > 8 && WellFormed(t)
    ensures Bit(Denoted(t), x) <==>
            if x < 32 then Bit(HexValue(t[|t| - 8..]), x) else Bit(Denoted(t[..|t| - 9]), x - 32)
  {
    DenotedSplit(t);
    GroupFits(t[|t| - 8..]);
    BitSplit(Denoted(t), Denoted(t[..|t| - 9]), HexValue(t[|t| - 8..]), 32, x);
  }

  lemma DenotedChunks(t: string, i: nat, x: nat)
    requires |t| > 8 && WellFormed(t)
    ensures BitOfChunk(Denoted(t), i, x) <==>
            BitOfChunk(HexValue(t[|t| - 8..]), i, x) || BitOfChunk(Denoted(t[..|t| - 9]), i + 1, x)
  {
    DenotedSplit(t);
    GroupFits(t[|t| - 8..]);
    JoinChunks(Denoted(t), Denoted(t[..|t| - 9]), HexValue(t[|t| - 8..]), i, x);
  }

  /** Parsing at the start of the last group of `t[..m]` reads exactly that group. */
  lemma ParseLastGroup(t: string, m: nat)
    requires m <= |t| && (m < |t| ==> t[m] == ',')
    requires WellFormed(t[..m])
    ensures AllHex(t[Clamp(m - 8)..m])
    ensures StrToUl(t[Clamp(m - 8)..]) == HexValue(t[Clamp(m - 8)..m]) < Pow2(32)
  {
    var q := Clamp(m - 8);
    var group, rest := t[q..m], t[m..];
    assert group == t[..m][q..];
    assert t[q..] == group + rest;
    StrToUlOfGroup(group, rest);
    GroupFits(group);
  }

  /** The scan of the first `m` characters finds the bits of the number they denote. */
  lemma {:induction false} ScanMeaning(t: string, m: nat, i: nat, x: nat)
    requires m <= |t| && (m < |t| ==> t[m] == ',')
    requires WellFormed(t[..m])
    ensures Scanned(t, m - 8, i, x) <==> BitOfChunk(Denoted(t[..m]), i, x)
    decreases m
  {
    hide StrToUl, Bit, Pow2, HexValue;
    ParseLastGroup(t, m);
    ghost var v := StrToUl(t[Clamp(m - 8)..]);
    assert Scanned(t, m - 8, i, x) <==> BitOfChunk(v, i, x) || Scanned(t, m - 17, i + 1, x);
    if m <= 8 {
      WithoutCommasOfHex(t[..m]);
      assert t[..m] == t[0..m];
      assert Denoted(t[..m]) == v;
    } else {
      var head := t[..m];
      assert head[..|head| - 9] == t[..m - 9] && head[|head| - 8..] == t[m - 8..m];
      ScanMeaning(t, m - 9, i + 1, x);
      DenotedChunks(head, i, x);
    }
  }

  /** For every well-formed text the scan finds exactly the bits of the denoted number. */
  lemma ScanDenotes(t: string, x: nat)
    requires WellFormed(t)
    ensures ScanFinds(t, x) <==> Bit(Denoted(t), x)
  {
    hide StrToUl, Scanned, WellFormed, Denoted, Bit;
    assert t[..|t|] == t;
    ScanMeaning(t, |t|, 0, x);
  }

  // ----- A printer for the format -----

  function ShiftDown(s: set<nat>, d: nat): (r: set<nat>)
    ensures forall y: nat :: y in r <==> y + d in s
  {
    var r := set x | x in s && x >= d :: x - d;
    assert forall y: nat | y + d in s :: y in r by {
      forall y: nat | y + d in s ensures y in r {
        assert y == (y + d) - d;
      }
    }
    r
  }

  /** The value of the four lowest members. */
  function Nibble(s: set<nat>): (d: nat)
    ensures d < 16
  {
    (if 0 in s then 1 else 0) + (if 1 in s then 2 else 0)
    + (if 2 in s then 4 else 0) + (if 3 in s then 8 else 0)
  }

  /** The members below `4 * k` as `k` hexadecimal digits. */
  function PrintGroup(s: set<nat>, k: nat): string
    decreases k, s
  {
    if k == 0 then [] else PrintGroup(ShiftDown(s, 4), k - 1) + [HexChar(Nibble(s))]
  }

  /** The members below `32 * n + 4 * k`: a group of `k` digits, then `n` groups of eight. */
  function PrintMask(s: set<nat>, n: nat, k: nat): string
    decreases n
  {
    if n == 0 then PrintGroup(s, k)
    else PrintMask(ShiftDown(s, 32), n - 1, k) + "," + PrintGroup(s, 8)
  }

  lemma {:induction false} PrintGroupShape(s: set<nat>, k: nat)
    ensures |PrintGroup(s, k)| == k && AllHex(PrintGroup(s, k))
    decreases k
  {
    if k > 0 {
      PrintGroupShape(ShiftDown(s, 4), k - 1);
    }
  }

  /** Bits of a numeral and of its last digit. */
  lemma LastDigitBit(v: nat, hi: nat, d: nat, x: nat)
    requires v == 16 * hi + d && d < 16
    ensures Bit(v, x) <==> if x < 4 then Bit(d, x) else Bit(hi, x - 4)
  {
    WordSizes();
    FourBitsMore(hi, 0);
    BitSplit(v, hi, d, 4, x);
  }

  lemma PrintGroupLast(s: set<nat>, k: nat)
    requires k > 0
    ensures AllHex(PrintGroup(s, k)) && AllHex(PrintGroup(ShiftDown(s, 4), k - 1))
    ensures HexValue(PrintGroup(s, k)) == 16 * HexValue(PrintGroup(ShiftDown(s, 4), k - 1)) + Nibble(s)
  {
    PrintGroupShape(s, k);
    PrintGroupShape(ShiftDown(s, 4), k - 1);
    assert PrintGroup(s, k)[..k - 1] == PrintGroup(ShiftDown(s, 4), k - 1);
  }

  lemma NibbleBit(s: set<nat>, x: nat)
    requires x < 4
    ensures Bit(Nibble(s), x) <==> x in s
  {
  }

  lemma {:induction false} PrintGroupValue(s: set<nat>, k: nat, x: nat)
    ensures AllHex(PrintGroup(s, k))
    ensures Bit(HexValue(PrintGroup(s, k)), x) <==> x < 4 * k && x in s
    decreases k
  {
    if k == 0 {
      NoBits();
    } else {
      hide Bit, Nibble, HexValue, PrintGroup, AllHex;
      var hi := ShiftDown(s, 4);
      PrintGroupLast(s, k);
      LastDigitBit(HexValue(PrintGroup(s, k)), HexValue(PrintGroup(hi, k - 1)), Nibble(s), x);
      if x < 4 {
        NibbleBit(s, x);
      } else {
        PrintGroupValue(hi, k - 1, x - 4);
      }
    }
  }

  lemma {:induction false} PrintedShape(s: set<nat>, n: nat, k: nat)
    requires 1 <= k <= 8
    ensures |PrintMask(s, n, k)| == 9 * n + k
    ensures WellFormed(PrintMask(s, n, k))
    decreases n
  {
    hide PrintGroup;
    if n == 0 {
      PrintGroupShape(s, k);
    } else {
      var t, head, last := PrintMask(s, n, k), PrintMask(ShiftDown(s, 32), n - 1, k), PrintGroup(s, 8);
      PrintGroupShape(s, 8);
      PrintedShape(ShiftDown(s, 32), n - 1, k);
      assert t[|t| - 8..] == last && t[..|t| - 9] == head;
    }
  }

  lemma {:induction false} PrintedValue(s: set<nat>, n: nat, k: nat, x: nat)
    requires 1 <= k <= 8
    ensures WellFormed(PrintMask(s, n, k))
    ensures Bit(Denoted(PrintMask(s, n, k)), x) <==> x < 32 * n + 4 * k && x in s
    decreases n
  {
    hide Bit, Pow2, PrintGroup,HexValue;
    PrintedShape(s, n, k);
    if n == 0 {
      PrintGroupValue(s, k, x);
      WithoutCommasOfHex(PrintMask(s, n, k));
    } else {
      var t, head, last := PrintMask(s, n, k), PrintMask(ShiftDown(s, 32), n - 1, k), PrintGroup(s, 8);
      PrintGroupShape(s, 8);
      assert t[|t| - 8..] == last && t[..|t| - 9] == head;
      DenotedBit(t, x);
      if x < 32 {
        PrintGroupValue(s, 8, x);
      } else {
        PrintedValue(ShiftDown(s, 32), n - 1, k, x - 32);
      }
    }
  }

  lemma LengthSplit(n: nat, k: nat)
    requires k <= 8
    ensures (9 * n + k) / 9 == n && (9 * n + k) % 9 == k
  {
  }

  /**
   Printing a set and scanning the text finds exactly the members of the set, and
   the closed form yields the number of bits that were printed.
   */
  lemma PrintScanRoundTrip(s: set<nat>, n: nat, k: nat, x: nat)
    requires 1 <= k <= 8
    requires forall y :: y in s ==> y < 32 * n + 4 * k
    ensures var t := PrintMask(s, n, k);
            WellFormed(t) && (ScanFinds(t, x) <==> x in s) && BitsInText(|t|) == 32 * n + 4 * k
  {
    PrintedShape(s, n, k);
    PrintedValue(s, n, k, x);
    ScanDenotes(PrintMask(s, n, k), x);
    LengthSplit(n, k);
  }

  // ----- Printing undoes reading -----

  predicate LowerCase(t: string) {
    forall i :: 0 <= i < |t| ==> !('A' <= t[i] <= 'F')
  }

  lemma DigitIsUnique(c: char, d: char)
    requires IsHex(c) && IsHex(d) && HexDigit(c) == HexDigit(d)
    requires !('A' <= c <= 'F') && !('A' <= d <= 'F')
    ensures c == d
  {
  }

  lemma SameLastDigit(x: nat, d: nat, y: nat, e: nat)
    requires d < 16 && e < 16 && 16 * x + d == 16 * y + e
    ensures x == y && d == e
  {
  }

  lemma {:induction false} NumeralIsUnique(a: string, b: string)
    requires |a| == |b| && AllHex(a) && AllHex(b) && LowerCase(a) && LowerCase(b)
    requires HexValue(a) == HexValue(b)
    ensures a == b
  {
    if a != [] {
      var n := |a| - 1;
      SameLastDigit(HexValue(a[..n]), HexDigit(a[n]), HexValue(b[..n]), HexDigit(b[n]));
      DigitIsUnique(a[n], b[n]);
      hide HexDigit, IsHex, HexValue;
      NumeralIsUnique(a[..n], b[..n]);
      assert a == a[..n] + [a[n]] && b == b[..n] + [b[n]];
    }
  }

  lemma SameSuffix(a: string, b: string, c: string, d: string)
    requires a + b == c + d && |b| == |d|
    ensures a == c && b == d
  {
    assert a == (a + b)[..|a|] && c == (c + d)[..|c|];
    assert b == (a + b)[|a|..] && d == (c + d)[|c|..];
  }

  lemma {:induction false} TextFromDigits(t: string, u: string)
    requires WellFormed(t) && WellFormed(u) && |t| == |u|
    requires WithoutCommas(t) == WithoutCommas(u)
    ensures t == u
    decreases |t|
  {
    if |t| <= 8 {
      WithoutCommasOfHex(t);
      WithoutCommasOfHex(u);
    } else {
      var n := |t| - 9;
      WithoutLastGroup(t);
      WithoutLastGroup(u);
      SameSuffix(WithoutCommas(t[..n]), t[n + 1..], WithoutCommas(u[..n]), u[n + 1..]);
      TextFromDigits(t[..n], u[..n]);
      assert t == t[..n] + [','] + t[n + 1..] && u == u[..n] + [','] + u[n + 1..];
    }
  }

  lemma {:induction false} DigitsAreLowerCase(t: string)
    requires LowerCase(t)
    ensures LowerCase(WithoutCommas(t))
  {
    if t != [] {
      DigitsAreLowerCase(t[..|t| - 1]);
    }
  }

  lemma {:induction false} PrintsGroupInLowerCase(s: set<nat>, k: nat)
    ensures LowerCase(PrintGroup(s, k))
    decreases k
  {
    hide Nibble;
    if k > 0 {
      PrintsGroupInLowerCase(ShiftDown(s, 4), k - 1);
    }
  }

  lemma {:induction false} PrintsInLowerCase(s: set<nat>, n: nat, k: nat)
    ensures LowerCase(PrintMask(s, n, k))
    decreases n
  {
    hide PrintGroup;
    PrintsGroupInLowerCase(s, if n == 0 then k else 8);
    if n > 0 {
      PrintsInLowerCase(ShiftDown(s, 32), n - 1, k);
    }
  }

  lemma BitsOfText(t: string, x: nat)
    requires WellFormed(t) && Bit(Denoted(t), x)
    ensures x < 32 * (|t| / 9) + 4 * (|t| % 9)
  {
    hide Bit, Denoted;
    BitCount(t);
    if x >= BitsInText(|t|) {
      NoHighBit(Denoted(t), BitsInText(|t|), x);
    }
  }

  lemma SameDenotation(t: string, u: string, s: set<nat>, n: nat, k: nat)
    requires WellFormed(t) && WellFormed(u) && |t| == |u| && LowerCase(t)
    requires u == PrintMask(s, n, k) && Denoted(t) == Denoted(u)
    ensures t == u
  {
    DigitsAreHex(t);
    DigitsAreHex(u);
    DigitsAreLowerCase(t);
    PrintsInLowerCase(s, n, k);
    DigitsAreLowerCase(u);
    DigitCount(t);
    DigitCount(u);
    NumeralIsUnique(WithoutCommas(t), WithoutCommas(u));
    TextFromDigits(t, u);
  }

  /** Every well-formed text in lower case is the print of the set it denotes: reading loses nothing. */
  lemma PrintUndoesScan(t: string, s: set<nat>)
    requires WellFormed(t) && LowerCase(t)
    requires forall x: nat :: x in s <==> ScanFinds(t, x)
    ensures 1 <= |t| % 9 <= 8 && PrintMask(s, |t| / 9, |t| % 9) == t
  {
    hide Bit, ScanFinds, PrintMask, WithoutCommas, Denoted, BitsInText;
    var n, k := |t| / 9, |t| % 9;
    DigitCount(t);
    BitCount(t);
    var u := PrintMask(s, n, k);
    PrintedShape(s, n, k);
    forall x: nat ensures Bit(Denoted(u), x) <==> Bit(Denoted(t), x) {
      PrintedValue(s, n, k, x);
      ScanDenotes(t, x);
      if Bit(Denoted(t), x) { BitsOfText(t, x); }
    }
    BitsDetermine(Denoted(u), Denoted(t));
    SameDenotation(t, u, s, n, k);
  }

  // ----- Outside the format: a trailing newline -----

  /** The last seven digits of a group hold its 28 low bits. */
  lemma LowDigits(g: string, low: string, y: nat)
    requires AllHex(g) && 1 <= |g| <= 8
    requires low == if |g| == 8 then g[1..] else g
    ensures AllHex(low)
    ensures Bit(HexValue(low), y) <==> Bit(HexValue(g), y) && y < 28
  {
    hide Bit, HexValue, Pow2;
    HexValueBound(low);
    Pow2Monotone(4 * |low|, 28);
    if y >= 28 {
      NoHighBit(HexValue(low), 28, y);
    } else if |g| == 8 {
      assert g == g[..1] + low;
      HexValueConcat(g[..1], low);
      BitSplit(HexValue(g), HexValue(g[..1]), HexValue(low), 28, y);
    }
  }

  lemma LowChunk(g: string, low: string, i: nat, x: nat)
    requires AllHex(g) && 1 <= |g| <= 8
    requires low == if |g| == 8 then g[1..] else g
    ensures AllHex(low)
    ensures BitOfChunk(HexValue(low), i, x) <==> BitOfChunk(HexValue(g), i, x) && x % 32 < 28
  {
    hide Bit, HexValue, Pow2, AllHex;
    GroupFits(g);
    LowDigits(g, low, Clamp(x - 32 * i));
    if x >= 32 * i + 32 {
      NoHighBit(HexValue(g), 32, x - 32 * i);
    }
  }

  lemma CutAt(t: string, p: nat, m: nat)
    requires p <= m <= |t|
    ensures (t + "\n")[p..] == t[p..m] + (t[m..] + "\n")
  {
  }

  lemma ParseLastSeven(t: string, m: nat, low: string)
    requires m <= |t| && (m < |t| ==> t[m] == ',')
    requires WellFormed(t[..m])
    requires low == t[Clamp(m - 7)..m]
    ensures AllHex(low) && StrToUl((t + "\n")[Clamp(m - 7)..]) == HexValue(low)
  {
    hide StrToUl, HexValue;
    assert AllHex(low) by {
      assert low == t[..m][Clamp(m - 7)..];
      assert m > 8 ==> low == t[..m][m - 8..][1..];
    }
    CutAt(t, Clamp(m - 7), m);
    StrToUlOfGroup(low, t[m..] + "\n");
  }

  /** One group of the scan of a text with a newline. */
  lemma NewlineChunk(t: string, m: nat, i: nat, x: nat)
    requires m <= |t| && (m < |t| ==> t[m] == ',')
    requires WellFormed(t[..m])
    ensures AllHex(t[Clamp(m - 8)..m])
    ensures BitOfChunk(StrToUl((t + "\n")[Clamp(m - 7)..]), i, x) <==>
            BitOfChunk(HexValue(t[Clamp(m - 8)..m]), i, x) && x % 32 < 28
  {
    var g, low := t[Clamp(m - 8)..m], t[Clamp(m - 7)..m];
    assert g == t[..m][Clamp(m - 8)..];
    assert low == if |g| == 8 then g[1..] else g;
    hide StrToUl, BitOfChunk, HexValue;
    ParseLastSeven(t, m, low);
    LowChunk(g, low, i, x);
  }

  /**
   When the first group has eight digits the scan goes on for one more round, and
   takes that group, as a whole, for another one above it.
   */
  ghost predicate ReadTwice(t: string, m: nat, i: nat, x: nat)
    requires m <= |t|
  {
    m % 9 == 8 && AllHex(t[..8]) && BitOfChunk(HexValue(t[..8]), i + m / 9 + 1, x)
  }

  lemma FirstGroupOfEight(t: string, i: nat, x: nat)
    requires 8 <= |t| && (8 < |t| ==> t[8] == ',') && AllHex(t[..8])
    ensures Scanned(t + "\n", -8, i, x) <==> BitOfChunk(HexValue(t[..8]), i, x)
  {
    hide StrToUl, BitOfChunk, HexValue;
    ScanStep(t + "\n", -8, i, x);
    CutAt(t, 0, 8);
    assert t[0..8] == t[..8];
    StrToUlOfGroup(t[..8], t[8..] + "\n");
  }

  lemma ReadTwiceBase(t: string, m: nat, i: nat, x: nat)
    requires m <= |t| && m <= 8 && WellFormed(t[..m])
    ensures m < 8 ==> !ReadTwice(t, m, i, x)
    ensures m == 8 ==> AllHex(t[..8]) && ReadTwice(t, m, i, x) == BitOfChunk(HexValue(t[..8]), i + 1, x)
  {
    hide BitOfChunk, HexValue;
  }

  lemma ReadTwiceStep(t: string, m: nat, i: nat, x: nat)
    requires 9 <= m <= |t|
    ensures ReadTwice(t, m, i, x) <==> ReadTwice(t, m - 9, i + 1, x)
  {
    hide BitOfChunk, HexValue, AllHex;
    NineMore(m);
  }

  /** The bits of `t[..m]` are those of its last group and those of the rest, 32 higher. */
  lemma DenotedOfPrefix(t: string, m: nat, i: nat, x: nat)
    requires m <= |t| && WellFormed(t[..m])
    ensures AllHex(t[Clamp(m - 8)..m])
    ensures m <= 8 ==> BitOfChunk(Denoted(t[..m]), i, x) == BitOfChunk(HexValue(t[Clamp(m - 8)..m]), i, x)
    ensures m > 8 ==>
      && t[m - 9] == ',' && WellFormed(t[..m - 9])
      && (BitOfChunk(Denoted(t[..m]), i, x) <==>
          BitOfChunk(HexValue(t[Clamp(m - 8)..m]), i, x) || BitOfChunk(Denoted(t[..m - 9]), i + 1, x))
  {
    hide BitOfChunk, HexValue;
    var head, g := t[..m], t[Clamp(m - 8)..m];
    if m <= 8 {
      WithoutCommasOfHex(head);
      assert head == g;
    } else {
      assert head[..|head| - 9] == t[..m - 9] && head[|head| - 8..] == g;
      DenotedChunks(head, i, x);
    }
  }

  lemma {:induction false} NewlineScan(t: string, m: nat, i: nat, x: nat)
    requires m <= |t| && (m < |t| ==> t[m] == ',')
    requires WellFormed(t[..m])
    ensures Scanned(t + "\n", m - 7, i, x) <==>
            (BitOfChunk(Denoted(t[..m]), i, x) && x % 32 < 28) || ReadTwice(t, m, i, x)
    decreases m
  {
    hide StrToUl, BitOfChunk, HexValue, Scanned, WellFormed, AllHex, ReadTwice, Denoted;
    NewlineChunk(t, m, i, x);
    DenotedOfPrefix(t, m, i, x);
    ScanStep(t + "\n", m - 7, i, x);
    if m <= 8 {
      ReadTwiceBase(t, m, i, x);
      if m == 8 { FirstGroupOfEight(t, i + 1, x); }
    } else {
      ReadTwiceStep(t, m, i, x);
      NewlineScan(t, m - 9, i + 1, x);
    }
  }

  /**
   The format has no newline at the end, and that matters: with one, the scan is off
   by a character.  It misses exactly the CPUs that the first digit of an eight-digit
   group stands for, 28 to 31 of every 32, and when the first group has eight digits it
   finds the CPUs of that group once more, 32 higher.
   */
  lemma TrailingNewlineMisreads(t: string, x: nat)
    requires WellFormed(t)
    ensures ScanFinds(t + "\n", x) <==> (Bit(Denoted(t), x) && x % 32 < 28) || ReadTwice(t, |t|, 0, x)
  {
    hide StrToUl, Bit, Denoted, WellFormed, ReadTwice;
    assert t[..|t|] == t;
    NewlineScan(t, |t|, 0, x);
  }

  /** No group of eight digits starts with a digit other than '0'. */
  predicate TopDigitsZero(t: string)
    decreases |t|
  {
    if |t| <= 8 then |t| == 8 ==> t[0] == '0'
    else t[|t| - 8] == '0' && TopDigitsZero(t[..|t| - 9])
  }

  predicate AllZeros(t: string) {
    forall i :: 0 <= i < |t| ==> t[i] == '0'
  }

  lemma {:induction false} ZeroNumeral(t: string)
    requires AllHex(t)
    ensures AllZeros(t) <==> HexValue(t) == 0
  {
    if t != [] {
      var n := |t| - 1;
      ZeroNumeral(t[..n]);
      assert t == t[..n] + [t[n]];
      assert HexDigit(t[n]) == 0 <==> t[n] == '0';
    }
  }

  /** A group of eight digits has bits from 28 on if and only if its first digit is not '0'. */
  lemma TopDigitBits(g: string, y: nat)
    requires |g| == 8 && AllHex(g) && y >= 28
    ensures Bit(HexValue(g), y) <==> Bit(HexDigit(g[0]), y - 28)
  {
    hide Bit, Pow2;
    var top, low := g[..1], g[1..];
    assert g == top + low;
    assert HexValue(top) == HexDigit(g[0]) by { assert top[..0] == []; }
    HexValueConcat(top, low);
    HexValueBound(low);
    BitSplit(HexValue(g), HexValue(top), HexValue(low), 28, y);
  }

  /** A short group has no bit from 28 on, and one of eight digits none if it starts with '0'. */
  lemma LowGroup(g: string, y: nat)
    requires AllHex(g) && 1 <= |g| <= 8 && (|g| == 8 ==> g[0] == '0')
    requires Bit(HexValue(g), y)
    ensures y < 28
  {
    if y >= 28 {
      if |g| == 8 {
        TopDigitBits(g, y);
        assert HexDigit('0') == 0;
        NoBits();
      } else {
        HexValueBound(g);
        Pow2Monotone(4 * |g|, y);
        NoHighBit(HexValue(g), 4 * |g|, y);
      }
    }
  }

  lemma {:induction false} TopDigitsZeroBits(t: string, x: nat)
    requires WellFormed(t) && TopDigitsZero(t) && Bit(Denoted(t), x)
    ensures x % 32 < 28
    decreases |t|
  {
    hide Bit, HexValue;
    if |t| <= 8 {
      WithoutCommasOfHex(t);
      LowGroup(t, x);
    } else {
      DenotedBit(t, x);
      if x < 32 {
        LowGroup(t[|t| - 8..], x);
      } else {
        TopDigitsZeroBits(t[..|t| - 9], x - 32);
      }
    }
  }

  /** The lowest CPU that the first digit of a group stands for. */
  lemma TopDigitWitness(g: string) returns (y: nat)
    requires |g| == 8 && AllHex(g) && g[0] != '0'
    ensures 28 <= y < 32 && Bit(HexValue(g), y)
  {
    var d := HexDigit(g[0]);
    assert d != 0;
    y := 28 + FindFirstSet(d) - 1;
    TopDigitBits(g, y);
    WordSizes();
    if y - 28 >= 4 { NoHighBit(d, 4, y - 28); }
  }

  lemma {:induction false} TopDigitsNonZero(t: string) returns (x: nat)
    requires WellFormed(t) && !TopDigitsZero(t)
    ensures x % 32 >= 28 && Bit(Denoted(t), x)
    decreases |t|
  {
    hide Bit, HexValue;
    if |t| <= 8 {
      WithoutCommasOfHex(t);
      x := TopDigitWitness(t);
    } else if t[|t| - 8] != '0' {
      x := TopDigitWitness(t[|t| - 8..]);
      DenotedBit(t, x);
    } else {
      x := TopDigitsNonZero(t[..|t| - 9]);
      x := x + 32;
      DenotedBit(t, x);
    }
  }
}
