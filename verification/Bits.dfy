/**
 Binary representation of natural numbers: the arithmetic behind the CPU masks.

 Machine words are modelled as natural numbers below a power of two, and a bit
 by its position, so that shifting, or-ing and clearing become arithmetic.
 */
module Bits {

  function Pow2(e: nat): (r: nat)
    ensures r > e
  {
    if e == 0 then 1 else 2 * Pow2(e - 1)
  }

  /** Bit number `x` of `v`, bit 0 being the least significant. */
  predicate Bit(v: nat, x: nat)
    decreases x
  {
    if x == 0 then v % 2 == 1 else Bit(v / 2, x - 1)
  }

  /** `v << k`, without overflow */
  function ShiftLeft(v: nat, k: nat): nat
    decreases k, v
  {
    if k == 0 then v else 2 * ShiftLeft(v, k - 1)
  }

  lemma TwiceProduct(v: nat, p: nat, q: nat)
    requires q == 2 * p
    ensures v * q == 2 * (v * p)
  {
    assert v * (2 * p) == 2 * (v * p);
  }

  lemma {:induction false} ShiftLeftIsTimesPow2(v: nat, k: nat)
    ensures ShiftLeft(v, k) == v * Pow2(k)
    decreases k
  {
    if k > 0 {
      ShiftLeftIsTimesPow2(v, k - 1);
      TwiceProduct(v, Pow2(k - 1), Pow2(k));
    }
  }

  lemma FourBitsMore(v: nat, k: nat)
    ensures Pow2(k + 4) == 16 * Pow2(k)
    ensures ShiftLeft(v, k + 4) == 16 * ShiftLeft(v, k)
  {
    assert Pow2(k + 4) == 2 * Pow2(k + 3) == 4 * Pow2(k + 2) == 8 * Pow2(k + 1);
    assert ShiftLeft(v, k + 4) == 2 * ShiftLeft(v, k + 3) == 4 * ShiftLeft(v, k + 2) == 8 * ShiftLeft(v, k + 1);
  }

  lemma ThirtyTwoBitsMore(k: nat)
    ensures Pow2(k + 32) == 0x1_0000_0000 * Pow2(k)
  {
    hide Pow2;
    FourBitsMore(0, k);
    FourBitsMore(0, k + 4);
    FourBitsMore(0, k + 8);
    FourBitsMore(0, k + 12);
    FourBitsMore(0, k + 16);
    FourBitsMore(0, k + 20);
    FourBitsMore(0, k + 24);
    FourBitsMore(0, k + 28);
  }

  lemma WordSizes()
    ensures Pow2(4) == 16
    ensures Pow2(32) == 0x1_0000_0000
    ensures Pow2(64) == 0x1_0000_0000_0000_0000
  {
    FourBitsMore(0, 0);
    ThirtyTwoBitsMore(0);
    ThirtyTwoBitsMore(32);
  }

  lemma {:induction false} BitBound(v: nat, x: nat)
    requires Bit(v, x)
    ensures v >= Pow2(x)
  {
    if x == 0 {
    } else {
      BitBound(v / 2, x - 1);
    }
  }

  /** Two parts of a number: the low `k` bits are those of `lo`, the others those of `hi`. */
  lemma {:induction false} BitConcat(hi: nat, lo: nat, k: nat, x: nat)
    requires lo < Pow2(k)
    ensures Bit(ShiftLeft(hi, k) + lo, x) <==> if x < k then Bit(lo, x) else Bit(hi, x - k)
    decreases k
  {
    if k > 0 {
      var h := ShiftLeft(hi, k - 1);
      assert (2 * h + lo) / 2 == h + lo / 2;
      assert (2 * h + lo) % 2 == lo % 2;
      if x > 0 {
        BitConcat(hi, lo / 2, k - 1, x - 1);
      }
    }
  }

  lemma BitSplit(v: nat, hi: nat, lo: nat, k: nat, x: nat)
    requires v == ShiftLeft(hi, k) + lo && lo < Pow2(k)
    ensures Bit(v, x) <==> if x < k then Bit(lo, x) else Bit(hi, x - k)
  {
    BitConcat(hi, lo, k, x);
  }

  lemma {:induction false} Pow2Monotone(a: nat, b: nat)
    requires a <= b
    ensures Pow2(a) <= Pow2(b)
    decreases b
  {
    if a < b {
      Pow2Monotone(a, b - 1);
    }
  }

  /** A number below 2^k has no bit at or above `k`. */
  lemma NoHighBit(v: nat, k: nat, x: nat)
    requires v < Pow2(k) && x >= k
    ensures !Bit(v, x)
  {
    if Bit(v, x) {
      BitBound(v, x);
      Pow2Monotone(k, x);
    }
  }

  /** A number is determined by its bits. */
  lemma {:induction false} BitsDetermine(v: nat, w: nat)
    requires forall x: nat :: Bit(v, x) <==> Bit(w, x)
    ensures v == w
    decreases v + w
  {
    assert Bit(v, 0) <==> Bit(w, 0);
    if v > 0 || w > 0 {
      forall x: nat ensures Bit(v / 2, x) <==> Bit(w / 2, x) {
        assert Bit(v, x + 1) <==> Bit(w, x + 1);
      }
      BitsDetermine(v / 2, w / 2);
    }
  }

  lemma DivMod(v: nat, p: nat)
    requires p > 0
    ensures v / p >= 0 && 0 <= v % p < p
    ensures v == v / p * p + v % p
  {
  }

  lemma {:induction false} ProductAtLeast(d: nat, p: nat)
    requires d > 0
    ensures d * p >= p
  {
    if d > 1 {
      ProductAtLeast(d - 1, p);
      assert d * p == (d - 1) * p + p;
    }
  }

  lemma OnlyOneQuotient(d: int, p: nat, r: nat, s: nat)
    requires r < p && s < p && d * p == r - s
    ensures r == s
  {
    if d > 0 {
      ProductAtLeast(d, p);
    } else if d < 0 {
      assert -d * p == s - r;
      ProductAtLeast(-d, p);
    }
  }

  lemma RemainderIsUnique(n: nat, q: nat, r: nat, p: nat)
    requires r < p && n == q * p + r
    ensures n % p == r
  {
    var t := n / p;
    DivMod(n, p);
    assert (q - t) * p == q * p - t * p;
    OnlyOneQuotient(q - t, p, n % p, r);
  }

  lemma OneMoreModulo(n: nat, p: nat)
    requires p > 0
    ensures (n + 1) % p == if n % p + 1 >= p then 0 else n % p + 1
    ensures 0 % p == 0
  {
    var q, r := n / p, n % p;
    RemainderIsUnique(0, 0, 0, p);
    if r + 1 >= p {
      assert n + 1 == (q + 1) * p;
      RemainderIsUnique(n + 1, q + 1, 0, p);
    } else {
      RemainderIsUnique(n + 1, q, r + 1, p);
    }
  }

  /** Reducing modulo a power of two keeps exactly the low bits. */
  lemma {:induction false} BitOfMod(v: nat, k: nat, x: nat)
    ensures Bit(v % Pow2(k), x) <==> x < k && Bit(v, x)
  {
    var hi, lo := v / Pow2(k), v % Pow2(k);
    DivMod(v, Pow2(k));
    ShiftLeftIsTimesPow2(hi, k);
    BitConcat(hi, lo, k, x);
    if x >= k { NoHighBit(lo, k, x); }
  }

  /** `v | (1 << j)` */
  function WithBit(v: nat, j: nat): nat {
    if Bit(v, j) then v else v + Pow2(j)
  }

  /** `v & ~(1 << j)` */
  function WithoutBit(v: nat, j: nat): (r: nat) {
    if Bit(v, j) then (BitBound(v, j); v - Pow2(j)) else v
  }

  lemma {:induction false} BitOfWithBit(v: nat, j: nat, x: nat)
    ensures Bit(WithBit(v, j), x) <==> x == j || Bit(v, x)
    decreases j
  {
    if j > 0 {
      if !Bit(v, j) {
        assert (v + 2 * Pow2(j - 1)) / 2 == v / 2 + Pow2(j - 1);
      }
      if x > 0 { BitOfWithBit(v / 2, j - 1, x - 1); }
    } else if x > 0 && v % 2 == 0 {
      assert (v + 1) / 2 == v / 2;
    }
  }

  lemma {:induction false} BitOfWithoutBit(v: nat, j: nat, x: nat)
    ensures Bit(WithoutBit(v, j), x) <==> x != j && Bit(v, x)
    decreases j
  {
    if j > 0 {
      if Bit(v, j) {
        BitBound(v, j);
        assert (v - 2 * Pow2(j - 1)) / 2 == v / 2 - Pow2(j - 1);
      }
      if x > 0 { BitOfWithoutBit(v / 2, j - 1, x - 1); }
    } else if x > 0 && v % 2 == 1 {
      assert (v - 1) / 2 == v / 2;
    }
  }

  lemma NoBits()
    ensures forall x: nat :: !Bit(0, x)
  {
    forall x: nat ensures !Bit(0, x) {
      if Bit(0, x) { BitBound(0, x); }
    }
  }

  /** `ffsl`: one plus the position of the least significant set bit, 0 for 0. */
  function FindFirstSet(v: nat): (r: nat)
    ensures v == 0 <==> r == 0
    ensures v > 0 ==> Bit(v, r - 1)
    ensures forall x: nat :: Bit(v, x) ==> r > 0 && x >= r - 1
  {
    if v == 0 then (NoBits(); 0)
    else if v % 2 == 1 then 1
    else 1 + FindFirstSet(v / 2)
  }
}
