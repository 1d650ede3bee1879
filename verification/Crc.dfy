/**
 * The checksum of MAVLink frames, x25crc.accumulate in
 * software/linux/gateway/mavlink-1.0.13/pymavlink/mavutil.py.
 */
module Crc {

  type Byte = b: bv16 | b < 0x100

  const INITIAL: bv16 := 0xffff

  /** What the code makes of the byte that leaves the register, eight bits at once. */
  function Spread(x: bv16): bv16 {
    Fan(Fold(x))
  }

  function Fold(x: bv16): bv16 { (x ^ (x << 4)) & 0xff }

  function Fan(x: bv16): bv16 { (x << 8) ^ (x << 3) ^ (x >> 4) }

  /** One byte as the code takes it in. */
  function StepByte(accum: bv16, b: Byte): bv16 {
    Join(accum >> 8, b ^ (accum & 0xff))
  }

  function Join(high: bv16, x: bv16): bv16 {
    high ^ Spread(x)
  }

  function Crc(accum: bv16, buf: seq<Byte>): bv16
    decreases |buf|
  {
    if buf == [] then accum else Crc(StepByte(accum, buf[0]), buf[1..])
  }

  /** An x25crc object. */
  class X25Crc {
    var crc: bv16

    constructor (buf: seq<Byte>)
      ensures crc == Crc(INITIAL, buf)
    {
      crc := INITIAL;
      new;
      Accumulate(buf);
    }

    /** One round of the loop. */
    method Round(accum: bv16, b: Byte) returns (next: bv16)
      ensures next == StepByte(accum, b)
    {
      var tmp := b ^ (accum & 0xff);
      tmp := (tmp ^ (tmp << 4)) & 0xff;
      next := (accum >> 8) ^ (tmp << 8) ^ (tmp << 3) ^ (tmp >> 4);
    }

    method Accumulate(buf: seq<Byte>)
      modifies this
      ensures crc == Crc(old(crc), buf)
    {
      var accum := crc;
      var i := 0;
      while i < |buf|
        invariant 0 <= i <= |buf|
        invariant Crc(accum, buf[i..]) == Crc(crc, buf)
        invariant crc == old(crc)
      {
        accum := Round(accum, buf[i]);
        assert buf[i..][1..] == buf[i + 1..];
        i := i + 1;
      }
      crc := accum;
    }
  }

  /** Checksumming in pieces. */
  lemma {:induction false} CrcConcat(accum: bv16, a: seq<Byte>, b: seq<Byte>)
    ensures Crc(accum, a + b) == Crc(Crc(accum, a), b)
    decreases |a|
  {
    if a == [] {
      assert a + b == b;
    } else {
      assert (a + b)[1..] == a[1..] + b;
      CrcConcat(StepByte(accum, a[0]), a[1..], b);
    }
  }

  // ------------------------------------------------------- the bitwise definition

  /** One bit of the reflected polynomial 0x8408. */
  function StepBit(c: bv16): bv16 {
    if c & 1 == 1 then (c >> 1) ^ 0x8408 else c >> 1
  }

  function Bits(c: bv16, n: nat): bv16
    decreases n, c
  {
    if n == 0 then c else Bits(StepBit(c), n - 1)
  }

  /** A buffer by the definition in section C.2 of RFC 1662, bit by bit, without the final complement. */
  ghost function SerialCrc(accum: bv16, buf: seq<Byte>): bv16
    decreases |buf|
  {
    if buf == [] then accum else SerialCrc(Bits(accum ^ buf[0], 8), buf[1..])
  }

  /** The bit that leaves, written without a test. */
  function Carry(c: bv16): bv16 {
    (c >> 1) ^ ((c & 1) << 15) ^ ((c & 1) << 10) ^ ((c & 1) << 3)
  }

  lemma LastBit(c: bv16)
    ensures c & 1 == 0 || c & 1 == 1
  {
  }

  lemma CarryOne(c: bv16)
    requires c & 1 == 1
    ensures Carry(c) == (c >> 1) ^ 0x8408
  {
  }

  lemma CarryZero(c: bv16)
    requires c & 1 == 0
    ensures Carry(c) == c >> 1
  {
  }

  lemma StepBitIsCarry(c: bv16)
    ensures StepBit(c) == Carry(c)
  {
    LastBit(c);
    if c & 1 == 1 {
      CarryOne(c);
    } else {
      CarryZero(c);
    }
  }

  /** Four bits at once. */
  function Nibble(c: bv16): bv16 {
    (c >> 4) ^ ((c & 0xf) << 12) ^ ((c & 0xf) << 7) ^ (c & 0xf)
  }

  lemma FourCarries(c: bv16)
    ensures Carry(Carry(Carry(Carry(c)))) == Nibble(c)
  {
  }

  /** The two nibbles of the low byte, as they mix. */
  lemma MixNibbles(c: bv16, n: bv16, t: bv16)
    requires n == (c >> 4) ^ ((c & 0xf) << 12) ^ ((c & 0xf) << 7) ^ (c & 0xf)
    requires t == ((c & 0xff) ^ ((c & 0xff) << 4)) & 0xff
    ensures n & 0xf == t >> 4 && n >> 4 == (c >> 8) ^ ((c & 0xf) << 8) ^ ((c & 0xf) << 3) && t & 0xf == c & 0xf
  {
  }

  lemma FanNibbles(h: bv16, l: bv16, t: bv16)
    requires t < 0x100 && t & 0xf == l
    ensures (h ^ (l << 8) ^ (l << 3)) ^ ((t >> 4) << 12) ^ ((t >> 4) << 7) ^ (t >> 4) == h ^ ((t << 8) ^ (t << 3) ^ (t >> 4))
  {
  }

  lemma TwoNibbles(c: bv16)
    ensures Nibble(Nibble(c)) == (c >> 8) ^ Spread(c & 0xff)
  {
    var n, t := Nibble(c), Fold(c & 0xff);
    FoldIsByte(c & 0xff);
    MixNibbles(c, n, t);
    FanNibbles(c >> 8, c & 0xf, t);
    hide Fold;
  }

  lemma {:induction false} FourBits(c: bv16, n: nat)
    ensures Bits(c, n + 4) == Bits(Nibble(c), n)
  {
    var c1, c2, c3 := StepBit(c), StepBit(StepBit(c)), StepBit(StepBit(StepBit(c)));
    StepBitIsCarry(c);
    StepBitIsCarry(c1);
    StepBitIsCarry(c2);
    StepBitIsCarry(c3);
    FourCarries(c);
    assert Bits(c, n + 4) == Bits(c1, n + 3) == Bits(c2, n + 2) == Bits(c3, n + 1);
  }

  lemma TakeIn(accum: bv16, b: Byte)
    ensures (accum ^ b) >> 8 == accum >> 8
    ensures (accum ^ b) & 0xff == b ^ (accum & 0xff)
  {
  }

  lemma TwiceFourBits(c: bv16, n: nat)
    ensures Bits(c, n + 8) == Bits((c >> 8) ^ Spread(c & 0xff), n)
  {
    FourBits(c, n + 4);
    FourBits(Nibble(c), n);
    TwoNibbles(c);
  }

  /** Eight single-bit steps are one step of the code. */
  lemma {:induction false} EightBits(accum: bv16, b: Byte)
    ensures Bits(accum ^ b, 8) == StepByte(accum, b)
  {
    var c, n := accum ^ b, 0;
    TwiceFourBits(c, n);
    TakeIn(accum, b);
  }

  /** The code computes the standard's checksum of every buffer. */
  lemma {:induction false} CrcIsSerial(accum: bv16, buf: seq<Byte>)
    ensures Crc(accum, buf) == SerialCrc(accum, buf)
    decreases |buf|
  {
    hide Bits, StepByte;
    if buf != [] {
      EightBits(accum, buf[0]);
      CrcIsSerial(StepByte(accum, buf[0]), buf[1..]);
    }
  }

  // ------------------------------------------------------------- error detection

  lemma FanApart(h: bv16, k: bv16, u: Byte, v: Byte)
    requires h < 0x100 && k < 0x100
    requires h ^ ((u << 8) ^ (u << 3) ^ (u >> 4)) == k ^ ((v << 8) ^ (v << 3) ^ (v >> 4))
    ensures h == k && u == v
  {
  }

  lemma FoldApart(x: Byte, y: Byte)
    requires (x ^ (x << 4)) & 0xff == (y ^ (y << 4)) & 0xff
    ensures x == y
  {
  }

  function Merge(high: bv16, t: bv16): bv16 {
    high ^ Fan(t)
  }

  lemma JoinMerges(h: bv16, x: bv16)
    ensures Join(h, x) == Merge(h, Fold(x))
  {
    hide Fan, Fold;
  }

  lemma MergeIs(h: bv16, t: bv16)
    ensures Merge(h, t) == h ^ ((t << 8) ^ (t << 3) ^ (t >> 4))
  {
  }

  lemma MergeApart(h: bv16, k: bv16, u: Byte, v: Byte)
    requires h < 0x100 && k < 0x100 && Merge(h, u) == Merge(k, v)
    ensures h == k && u == v
  {
    MergeIs(h, u);
    MergeIs(k, v);
    hide Merge;
    FanApart(h, k, u, v);
  }

  lemma JoinApart(h: bv16, k: bv16, x: Byte, y: Byte)
    requires h < 0x100 && k < 0x100 && Join(h, x) == Join(k, y)
    ensures h == k && x == y
  {
    hide Fold, Merge, Join;
    JoinMerges(h, x);
    JoinMerges(k, y);
    FoldIsByte(x);
    FoldIsByte(y);
    MergeApart(h, k, Fold(x), Fold(y));
    FoldsApart(x, y);
  }

  lemma FoldsApart(x: Byte, y: Byte)
    requires Fold(x) == Fold(y)
    ensures x == y
  {
    FoldApart(x, y);
  }

  lemma FoldIsByte(x: bv16)
    ensures Fold(x) < 0x100
  {
  }

  lemma Parts(a: bv16, b: Byte)
    ensures b ^ (a & 0xff) < 0x100 && a >> 8 < 0x100
  {
  }

  lemma Rejoin(a: bv16, c: bv16, b: Byte, d: Byte)
    requires a >> 8 == c >> 8 && b ^ (a & 0xff) == d ^ (c & 0xff)
    ensures a == c ^ (b ^ d)
  {
  }

  lemma StepApart(a: bv16, c: bv16, b: Byte, d: Byte)
    requires StepByte(a, b) == StepByte(c, d)
    ensures a >> 8 == c >> 8 && b ^ (a & 0xff) == d ^ (c & 0xff)
  {
    hide Join;
    Parts(a, b);
    Parts(c, d);
    JoinApart(a >> 8, c >> 8, b ^ (a & 0xff), d ^ (c & 0xff));
  }

  /** Registers that agree after a byte each differed before, if at all, by the difference of the bytes. */
  lemma StepInjective(a: bv16, c: bv16, b: Byte, d: Byte)
    requires StepByte(a, b) == StepByte(c, d)
    ensures a == c ^ (b ^ d)
  {
    hide StepByte;
    StepApart(a, c, b, d);
    Rejoin(a, c, b, d);
  }

  lemma SelfCancels(a: bv16, b: bv16)
    ensures b ^ b == 0 && a ^ 0 == a
  {
  }

  /** Different registers stay different whatever follows. */
  lemma {:induction false} CrcInjective(a: bv16, c: bv16, buf: seq<Byte>)
    requires Crc(a, buf) == Crc(c, buf)
    ensures a == c
    decreases |buf|
  {
    hide StepByte;
    if buf != [] {
      CrcInjective(StepByte(a, buf[0]), StepByte(c, buf[0]), buf[1..]);
      StepInjective(a, c, buf[0], buf[0]);
      SelfCancels(c, buf[0]);
    }
  }

  lemma Absorbed(a: bv16, e: bv16)
    requires a == a ^ e
    ensures e == 0
  {
  }

  lemma XorZero(x: bv16, y: bv16)
    requires x ^ y == 0
    ensures x == y
  {
  }

  lemma SameByte(l: bv16, b: bv16, d: bv16)
    requires b ^ l == d ^ l
    ensures b == d
  {
  }

  lemma JoinAway(h: Byte, l: Byte, b: Byte, d: Byte, e: Byte)
    requires Join(h, b ^ l) == Join(h, d ^ l) ^ e
    ensures b == d
  {
    ByteXor(b, l);
    ByteXor(d, l);
    ByteXor(h, e);
    JoinMoves(h, d ^ l, e);
    hide Join;
    JoinApart(h, h ^ e, b ^ l, d ^ l);
    SameByte(l, b, d);
  }

  lemma JoinMoves(h: bv16, x: bv16, e: bv16)
    ensures Join(h, x) ^ e == Join(h ^ e, x)
  {
    hide Spread;
    Commute(h, Spread(x), e);
  }

  lemma Taken(a: bv16, b: Byte, h: bv16, l: bv16)
    requires h == a >> 8 && l == a & 0xff
    ensures StepByte(a, b) == Join(h, b ^ l)
  {
  }

  /** What differs after one step differs in a way no single byte can undo. */
  lemma NoByteUndoes(a: bv16, b: Byte, d: Byte, e: Byte)
    requires StepByte(a, b) == StepByte(a, d) ^ e
    ensures b == d
  {
    hide Join, StepByte;
    var h, l := a >> 8, a & 0xff;
    Low(a);
    Taken(a, b, h, l);
    Taken(a, d, h, l);
    JoinAway(h, l, b, d, e);
  }

  lemma Low(a: bv16)
    ensures a >> 8 < 0x100 && a & 0xff < 0x100
  {
  }

  lemma Commute(h: bv16, s: bv16, e: bv16)
    ensures (h ^ s) ^ e == (h ^ e) ^ s
  {
  }

  lemma ByteXor(h: Byte, e: Byte)
    ensures h ^ e < 0x100
  {
  }

  /** Buffers that differ only in two neighbouring bytes, both or one, never share a checksum. */
  lemma {:induction false} BurstIsDetected(accum: bv16, p: seq<Byte>, b0: Byte, b1: Byte, d0: Byte, d1: Byte,
                                           q: seq<Byte>)
    requires [b0, b1] != [d0, d1]
    ensures Crc(accum, p + [b0, b1] + q) != Crc(accum, p + [d0, d1] + q)
  {
    hide Crc;
    if Crc(accum, p + [b0, b1] + q) == Crc(accum, p + [d0, d1] + q) {
      var a := Crc(accum, p);
      TwoBytes(accum, p, b0, b1, q);
      TwoBytes(accum, p, d0, d1, q);
      hide StepByte;
      TwoBytesApart(a, b0, b1, d0, d1, q);
    }
  }

  lemma {:induction false} TwoBytesApart(a: bv16, b0: Byte, b1: Byte, d0: Byte, d1: Byte, q: seq<Byte>)
    requires Crc(StepByte(StepByte(a, b0), b1), q) == Crc(StepByte(StepByte(a, d0), d1), q)
    ensures b0 == d0 && b1 == d1
  {
    hide StepByte, Crc;
    CrcInjective(StepByte(StepByte(a, b0), b1), StepByte(StepByte(a, d0), d1), q);
    var u, v := StepByte(a, b0), StepByte(a, d0);
    StepsApart(a, b0, d0, b1, d1, u, v);
  }

  lemma StepsApart(a: bv16, b0: Byte, d0: Byte, b1: Byte, d1: Byte, u: bv16, v: bv16)
    requires u == StepByte(a, b0) && v == StepByte(a, d0) && StepByte(u, b1) == StepByte(v, d1)
    ensures b0 == d0 && b1 == d1
  {
    hide StepByte;
    StepInjective(u, v, b1, d1);
    ByteXor(b1, d1);
    FirstSame(a, b0, d0, b1 ^ d1, u, v);
    SecondSame(u, v, b1, d1);
  }

  lemma FirstSame(a: bv16, b0: Byte, d0: Byte, e: Byte, u: bv16, v: bv16)
    requires u == StepByte(a, b0) && v == StepByte(a, d0) && u == v ^ e
    ensures b0 == d0 && u == v
  {
    hide StepByte;
    NoByteUndoes(a, b0, d0, e);
  }

  lemma SecondSame(u: bv16, v: bv16, b1: Byte, d1: Byte)
    requires u == v ^ (b1 ^ d1) && u == v
    ensures b1 == d1
  {
    Absorbed(u, b1 ^ d1);
    XorZero(b1, d1);
  }

  lemma {:induction false} TwoBytes(accum: bv16, p: seq<Byte>, b0: Byte, b1: Byte, q: seq<Byte>)
    ensures Crc(accum, p + [b0, b1] + q) == Crc(StepByte(StepByte(Crc(accum, p), b0), b1), q)
  {
    hide StepByte;
    CrcConcat(accum, p, [b0, b1] + q);
    assert p + [b0, b1] + q == p + ([b0, b1] + q);
    assert ([b0, b1] + q)[1..] == [b1] + q;
    assert ([b1] + q)[1..] == q;
  }
}
