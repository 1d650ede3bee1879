/**
 * Bit ranks of a slot mask (firmware/lib/rtls_nrng/src/slots.c). A 32-bit word is a
 * number below 2^32; its bits are its binary digits, and And is the operator & on them.
 */
module Slots {
  import opened Prelude

  function Pow2(i: nat): (p: nat)
    ensures p > 0
  {
    if i == 0 then 1 else 2 * Pow2(i - 1)
  }

  lemma WordSize()
    ensures Pow2(14) == 0x4000 && Pow2(16) == POW16 && Pow2(32) == POW32
  {
    assert Pow2(8) == 0x100;
    assert Pow2(14) == 0x4000;
    assert Pow2(16) == POW16;
    assert Pow2(24) == 0x100_0000;
  }

  predicate Bit(n: nat, i: nat) {
    if i == 0 then n % 2 == 1 else Bit(n / 2, i - 1)
  }

  function And(n: nat, m: nat): (r: nat)
    ensures r <= n && r <= m
  {
    if n == 0 || m == 0 then 0 else (if n % 2 == 1 && m % 2 == 1 then 1 else 0) + 2 * And(n / 2, m / 2)
  }

  lemma {:induction false} AndBits(n: nat, m: nat, i: nat)
    ensures Bit(And(n, m), i) <==> Bit(n, i) && Bit(m, i)
    decreases i
  {
    if n == 0 || m == 0 {
      ZeroHasNoBit(i);
    } else if i > 0 {
      AndBits(n / 2, m / 2, i - 1);
    }
  }

  lemma {:induction false} ZeroHasNoBit(i: nat)
    ensures !Bit(0, i)
  {
    if i > 0 { ZeroHasNoBit(i - 1); }
  }

  lemma {:induction false} PowerBits(i: nat, j: nat)
    ensures Bit(Pow2(i), j) <==> i == j
  {
    if i > 0 && j > 0 {
      PowerBits(i - 1, j - 1);
    } else if j > 0 {
      ZeroHasNoBit(j - 1);
    }
  }

  /** How many bits of n are set. */
  ghost function PopCount(n: nat): nat {
    if n == 0 then 0 else n % 2 + PopCount(n / 2)
  }

  /** How many bits of n below position i are set. */
  ghost function Rank(n: nat, i: nat): nat {
    if i == 0 then 0 else n % 2 + Rank(n / 2, i - 1)
  }

  lemma {:induction false} RankNext(n: nat, i: nat)
    ensures Rank(n, i + 1) == Rank(n, i) + if Bit(n, i) then 1 else 0
  {
    if i > 0 { RankNext(n / 2, i - 1); }
  }

  lemma {:induction false} RankOfNone(n: nat)
    ensures Rank(n, 0) == 0
  {
  }

  lemma {:induction false} RankOfAll(n: nat, i: nat)
    ensures n < Pow2(i) ==> Rank(n, i) == PopCount(n)
    ensures Rank(n, i) <= PopCount(n)
  {
    if i > 0 { RankOfAll(n / 2, i - 1); }
  }

  // ------------------------------------------------------------ the functions

  lemma {:induction false} AndSelf(n: nat)
    ensures And(n, n) == n
  {
    if n > 0 { AndSelf(n / 2); }
  }

  /** The count of a word from its lowest bit and the rest. */
  lemma CountStep(low: nat, high: nat)
    requires low < 2
    ensures PopCount(low + 2 * high) == low + PopCount(high)
  {
    assert (low + 2 * high) / 2 == high && (low + 2 * high) % 2 == low;
  }

  lemma AndStep(a: nat, x: nat, b: nat, y: nat)
    requires a < 2 && b < 2
    ensures And(a + 2 * x, b + 2 * y) == (if a == 1 && b == 1 then 1 else 0) + 2 * And(x, y)
  {
    var n, m := a + 2 * x, b + 2 * y;
    assert n / 2 == x && n % 2 == a && m / 2 == y && m % 2 == b;
  }

  /** n & (n-1) is n without one bit. */
  lemma {:induction false} ClearLowestBit(n: nat)
    requires n > 0
    ensures PopCount(And(n, n - 1)) == PopCount(n) - 1
  {
    hide And, PopCount;
    var h := n / 2;
    if n == 1 + 2 * h {
      AndStep(1, h, 0, h);
      AndSelf(h);
      CountStep(1, h);
      CountStep(0, h);
    } else {
      ClearLowestBit(h);
      AndStep(0, h, 1, h - 1);
      CountStep(0, h);
      CountStep(0, And(h, h - 1));
    }
  }

  method NumberOfBits(n: nat) returns (count: nat)
    ensures count == PopCount(n)
  {
    count := 0;
    var m := n;
    while m != 0
      invariant count + PopCount(m) == PopCount(n)
    {
      ClearLowestBit(m);
      m := And(m, m - 1);
      count := count + 1;
    }
  }

  method BitPosition(n: nat, ghost i: nat) returns (count: nat)
    requires n == Pow2(i)
    ensures count == i + 1
  {
    count := 0;
    var m := n;
    while m != 0
      invariant count <= i + 1
      invariant m == if count <= i then Pow2(i - count) else 0
    {
      m := m / 2;
      count := count + 1;
    }
  }

  lemma {:induction false} Zeros(n: nat)
    ensures And(n, 0) == 0 && And(0, n) == 0 && PopCount(0) == 0 && Pow2(0) == 1 && Rank(n, 0) == 0
  {
  }

  lemma PowerStep(k: nat)
    ensures Pow2(k + 1) == 2 * Pow2(k)
  {
  }

  lemma RankStep(low: nat, high: nat, k: nat)
    requires low < 2
    ensures Rank(low + 2 * high, k + 1) == low + Rank(high, k)
  {
    assert (low + 2 * high) / 2 == high && (low + 2 * high) % 2 == low;
  }

  lemma Halve(n: nat) returns (low: nat, high: nat)
    ensures low < 2 && n == low + 2 * high
  {
    low, high := n % 2, n / 2;
  }

  lemma {:induction false} CountBelow(n: nat, k: nat)
    ensures PopCount(And(n, Pow2(k) - 1)) == Rank(n, k)
    decreases k
  {
    hide And, PopCount, Pow2, Rank;
    if k == 0 {
      Zeros(n);
    } else {
      var low, high := Halve(n);
      CountBelow(high, k - 1);
      PowerStep(k - 1);
      AndStep(low, high, 1, Pow2(k - 1) - 1);
      CountStep(low, And(high, Pow2(k - 1) - 1));
      RankStep(low, high, k - 1);
    }
  }

  lemma {:induction false} CountFrom(n: nat, k: nat, width: nat)
    requires k <= width && n < Pow2(width)
    ensures Pow2(k) <= Pow2(width)
    ensures PopCount(And(n, Pow2(width) - Pow2(k))) == PopCount(n) - Rank(n, k)
    decreases k
  {
    hide And, PopCount, Pow2, Rank;
    if k == 0 {
      Zeros(n);
      CountBelow(n, width);
      RankOfAll(n, width);
    } else {
      var low, high := Halve(n);
      PowerStep(k - 1);
      PowerStep(width - 1);
      CountFrom(high, k - 1, width - 1);
      AndStep(low, high, 0, Pow2(width - 1) - Pow2(k - 1));
      CountStep(low, high);
      CountStep(0, And(high, Pow2(width - 1) - Pow2(k - 1)));
      RankStep(low, high, k - 1);
    }
  }

  datatype SlotMode = RemainingSlots | SlotPosition

  /**
   * The position of bit i among the set bits of the mask. In the other mode the result is the number of
   * set bits above i less one, which for the highest bit wraps to 2^32 - 1. Bit 31 would shift by 32.
   */
  method BitIndex(mask: nat, n: nat, ghost i: nat, mode: SlotMode) returns (index: nat)
    requires mask < POW32 && i < 31 && n == Pow2(i) && Bit(mask, i)
    ensures mode == SlotPosition ==> index == Rank(mask, i) < PopCount(mask)
    ensures mode == RemainingSlots ==> index == (PopCount(mask) - Rank(mask, i + 1) - 1) % POW32
  {
    hide And, PopCount, Rank, Bit, Pow2;
    IndexFacts(mask, i);
    var idx := BitPosition(n, i);
    if mode == SlotPosition {
      index := NumberOfBits(And(mask, Pow2(idx) - 1));
      index := index - 1;
    } else {
      index := NumberOfBits(And(mask, POW32 - Pow2(idx)));
      index := (index - 1) % POW32;
    }
  }

  /** What the two masks of BitIndex count. */
  lemma IndexFacts(mask: nat, i: nat)
    requires mask < POW32 && i < 31 && Bit(mask, i)
    ensures Pow2(i + 1) <= POW32
    ensures PopCount(And(mask, Pow2(i + 1) - 1)) == Rank(mask, i + 1) == Rank(mask, i) + 1 <= PopCount(mask)
    ensures PopCount(And(mask, POW32 - Pow2(i + 1))) == PopCount(mask) - Rank(mask, i + 1)
  {
    WordSize();
    hide And, PopCount, Rank, Bit, Pow2;
    RankNext(mask, i);
    RankOfAll(mask, i + 1);
    CountBelow(mask, i + 1);
    CountFrom(mask, i + 1, 32);
  }

  // ------------------------------------------------- ranks number the set bits

  /** Ranks rise strictly from set bit to set bit. */
  lemma {:induction false} RankStrict(n: nat, i: nat, j: nat)
    requires i < j && Bit(n, i)
    ensures Rank(n, i) < Rank(n, j)
    decreases j
  {
    RankNext(n, j - 1);
    if i < j - 1 { RankStrict(n, i, j - 1); }
  }

  /** Every number below the count is the rank of a set bit. */
  lemma {:induction false} RankOnto(n: nat, k: nat, j: nat) returns (i: nat)
    requires k < Rank(n, j)
    ensures i < j && Bit(n, i) && Rank(n, i) == k
    decreases j
  {
    RankNext(n, j - 1);
    if k < Rank(n, j - 1) {
      i := RankOnto(n, k, j - 1);
    } else {
      i := j - 1;
    }
  }

  /** The rank of a bit depends on the bits below it only. */
  lemma {:induction false} RankAgrees(n: nat, m: nat, i: nat)
    requires forall j :: 0 <= j < i ==> (Bit(n, j) <==> Bit(m, j))
    ensures Rank(n, i) == Rank(m, i)
    decreases i
  {
    if i > 0 {
      RankAgrees(n, m, i - 1);
      RankNext(n, i - 1);
      RankNext(m, i - 1);
    }
  }

  /** BitIndex maps the set bits of a mask, in ascending order, onto 0, 1, ..., one less than their number. */
  lemma {:induction false} RankNumbersBits(mask: nat, k: nat)
    requires mask < POW32
    ensures forall i, j :: 0 <= i < j && Bit(mask, i) && Bit(mask, j) ==> Rank(mask, i) < Rank(mask, j)
    ensures k < PopCount(mask) <==> exists i: nat :: i < 32 && Bit(mask, i) && Rank(mask, i) == k
  {
    forall i: nat, j: nat | i < j && Bit(mask, i) && Bit(mask, j) ensures Rank(mask, i) < Rank(mask, j) {
      RankStrict(mask, i, j);
    }
    WordSize();
    RankOfAll(mask, 32);
    if k < PopCount(mask) {
      var i := RankOnto(mask, k, 32);
    }
    forall i: nat | i < 32 && Bit(mask, i) ensures Rank(mask, i) < PopCount(mask) {
      RankStrict(mask, i, 32);
    }
  }
}
