/**
 * MAVLink frames: packing and decoding of one message in
 * software/linux/gateway/mavlink.py. The value of a field is the string of
 * its bytes on the wire.
 */
module Mavlink {

  import Crc

  type Byte = b: nat | b < 256

  const MARKER_V1: Byte := 0xfe
  const MARKER_V2: Byte := 0xfd
  const SIGNATURE_LEN: nat := 13

  // ------------------------------------------------------------ message classes

  /**
   * One message class. A message has its fields in the declared order; pack
   * writes field packed[0] first, then packed[1] and so on; `widths` are the
   * sizes as packed, and decode takes field i from place orders[i].
   */
  datatype Spec = Spec(packed: seq<nat>, widths: seq<nat>, orders: seq<nat>, crcExtra: Byte)

  function Total(widths: seq<nat>): nat {
    if widths == [] then 0 else widths[0] + Total(widths[1..])
  }

  /** `orders` says where each declared field is packed. */
  ghost predicate Consistent(spec: Spec) {
    && |spec.packed| == |spec.widths| == |spec.orders|
    && (forall j :: 0 <= j < |spec.packed| ==> spec.packed[j] < |spec.packed|)
    && (forall i :: 0 <= i < |spec.orders| ==>
          spec.orders[i] < |spec.packed| && spec.packed[spec.orders[i]] == i)
    && Total(spec.widths) < 256
  }

  type Registry = map<nat, Spec>

  ghost predicate Sound(reg: Registry) {
    forall id :: id in reg ==> Consistent(reg[id])
  }

  /** MAVLink_tof_message declares uwb_address, anchor, tof and packs tof, uwb_address, anchor. */
  const TOF: Spec := Spec([2, 0, 1], [4, 2, 2], [1, 2, 0], 4)

  lemma TofIsConsistent()
    ensures Consistent(TOF)
  {
    assert TOF.widths[1..] == [2, 2] && [2, 2][1..] == [2];
    assert Total([2]) == 2 && Total([2, 2]) == 4;
  }

  datatype Message = Message(id: nat, fields: seq<seq<Byte>>)

  /** A message object of one of the classes. */
  ghost predicate Fits(reg: Registry, m: Message) {
    && m.id in reg && m.id < 256
    && Shaped(reg[m.id], m.fields)
  }

  ghost predicate Shaped(spec: Spec, fields: seq<seq<Byte>>) {
    && Consistent(spec)
    && |fields| == |spec.packed|
    && (forall j :: 0 <= j < |spec.packed| ==> |fields[spec.packed[j]]| == spec.widths[j])
  }

  // -------------------------------------------------------------------- packing

  /** struct.pack of the given fields one after another. */
  function Packed(packed: seq<nat>, fields: seq<seq<Byte>>): seq<Byte>
    requires forall j :: 0 <= j < |packed| ==> packed[j] < |fields|
  {
    if packed == [] then [] else fields[packed[0]] + Packed(packed[1..], fields)
  }

  /** A byte as a word of the checksum register. */
  function Word(b: Byte): (w: Crc.Byte) {
    var bit := Bits(b);
    OnesAreByte(bit[0], bit[1], bit[2], bit[3], bit[4], bit[5], bit[6], bit[7]);
    Ones(bit[0], bit[1], bit[2], bit[3], bit[4], bit[5], bit[6], bit[7])
  }

  /** The binary digits of a byte, lowest first. */
  function Bits(b: Byte): (r: seq<bool>)
    ensures |r| == 8
  {
    var g := Less(b, 128);
    var f := Less(g, 64);
    var e := Less(f, 32);
    var d := Less(e, 16);
    var c := Less(d, 8);
    var a := Less(c, 4);
    [Less(a, 2) == 1, a >= 2, c >= 4, d >= 8, e >= 16, f >= 32, g >= 64, b >= 128]
  }

  function Less(b: Byte, digit: nat): Byte {
    if b >= digit then b - digit else b
  }

  function Sum(a: bool, b: bool, c: bool, d: bool, e: bool, f: bool, g: bool, h: bool): Byte {
    (if a then 1 else 0) + (if b then 2 else 0) + (if c then 4 else 0) + (if d then 8 else 0)
    + (if e then 16 else 0) + (if f then 32 else 0) + (if g then 64 else 0) + (if h then 128 else 0)
  }

  lemma SumOfBits(b: Byte)
    ensures var t := Bits(b); Sum(t[0], t[1], t[2], t[3], t[4], t[5], t[6], t[7]) == b
  {
  }

  function Ones(a: bool, b: bool, c: bool, d: bool, e: bool, f: bool, g: bool, h: bool): bv16 {
    (if a then 1 else 0) | (if b then 2 else 0) | (if c then 4 else 0) | (if d then 8 else 0) |
    (if e then 16 else 0) | (if f then 32 else 0) | (if g then 64 else 0) | (if h then 128 else 0)
  }

  lemma OnesAreByte(a: bool, b: bool, c: bool, d: bool, e: bool, f: bool, g: bool, h: bool)
    ensures Ones(a, b, c, d, e, f, g, h) < 0x100
  {
  }

  /** The low byte of a word. */
  function Octet(w: bv16): Byte {
    var low := (if w & 1 != 0 then 1 else 0) + (if w & 2 != 0 then 2 else 0)
             + (if w & 4 != 0 then 4 else 0) + (if w & 8 != 0 then 8 else 0);
    var high := (if w & 16 != 0 then 16 else 0) + (if w & 32 != 0 then 32 else 0)
              + (if w & 64 != 0 then 64 else 0) + (if w & 128 != 0 then 128 else 0);
    low + high
  }

  lemma OctetOfOnes(a: bool, b: bool, c: bool, d: bool, e: bool, f: bool, g: bool, h: bool)
    ensures Octet(Ones(a, b, c, d, e, f, g, h)) == Sum(a, b, c, d, e, f, g, h)
  {
  }

  /** The two readings of a byte agree. */
  lemma WordOctet(b: Byte)
    ensures Octet(Word(b)) == b
  {
    hide Ones, Octet, Sum, Bits;
    var t := Bits(b);
    SumOfBits(b);
    OctetOfOnes(t[0], t[1], t[2], t[3], t[4], t[5], t[6], t[7]);
  }

  lemma OctetInjective(v: bv16, w: bv16)
    requires Octet(v) == Octet(w) && Octet(v >> 8) == Octet(w >> 8)
    ensures v == w
  {
  }

  function Words(buf: seq<Byte>): (r: seq<Crc.Byte>)
    ensures |r| == |buf| && forall i :: 0 <= i < |buf| ==> r[i] == Word(buf[i])
  {
    seq(|buf|, i requires 0 <= i < |buf| => Word(buf[i]))
  }

  /** The checksum of a buffer as it is sent, low byte first. */
  function Checksum(buf: seq<Byte>): (r: seq<Byte>)
    ensures |r| == 2
  {
    var crc := Crc.Crc(Crc.INITIAL, Words(buf));
    [Octet(crc), Octet(crc >> 8)]
  }

  /** A version 1 frame around a payload. */
  function Frame(crcExtra: Byte, id: Byte, payload: seq<Byte>, seqNo: Byte, system: Byte, component: Byte): seq<Byte>
    requires |payload| < 256
  {
    var body := [|payload|, seqNo, system, component, id] + payload;
    [MARKER_V1] + body + Checksum(body + [crcExtra])
  }

  /** Cutting trailing zeros off a payload, as version 2 does. */
  method Trim(payload: seq<Byte>) returns (plen: nat)
    ensures plen <= |payload|
    ensures plen == 0 <==> payload == []
    ensures plen > 1 ==> payload[plen - 1] != 0
    ensures FitTo(payload[..plen], |payload|) == payload
  {
    plen := |payload|;
    while plen > 1 && payload[plen - 1] == 0
      invariant plen <= |payload|
      invariant plen == 0 <==> payload == []
      invariant forall k :: plen <= k < |payload| ==> payload[k] == 0
    {
      plen := plen - 1;
    }
  }

  // ------------------------------------------------------------------- decoding

  datatype Reason = BadPrefix | BadFlags | BadHeader | BadLength | UnknownId | BadCrc

  /** What the parser makes of the bytes it takes off its buffer. */
  datatype Verdict =
    | Good(seqNo: Byte, system: Byte, component: Byte, message: Message)
    | Bad(data: seq<Byte>, reason: Reason)

  /** Padding with zeros or cutting to a given size. */
  function FitTo(buf: seq<Byte>, size: nat): (r: seq<Byte>)
    ensures |r| == size
  {
    if |buf| < size then buf + seq(size - |buf|, _ => 0) else buf[..size]
  }

  /** struct.unpack: consecutive fields of the given widths. */
  function Unpacked(widths: seq<nat>, buf: seq<Byte>): (r: seq<seq<Byte>>)
    requires |buf| == Total(widths)
    ensures |r| == |widths|
  {
    if widths == [] then [] else [buf[..widths[0]]] + Unpacked(widths[1..], buf[widths[0]..])
  }

  /** Unpacking, and the fields back in the declared order. */
  function DecodeBody(spec: Spec, body: seq<Byte>): seq<seq<Byte>>
    requires Consistent(spec)
  {
    var t := Unpacked(spec.widths, FitTo(body, Total(spec.widths)));
    seq(|spec.orders|, i requires 0 <= i < |spec.orders| => t[spec.orders[i]])
  }

  datatype Header = Header(len: nat, signature: nat, seqNo: Byte, system: Byte, component: Byte, id: nat)

  function HeaderOf(buf: seq<Byte>): Header
    requires |buf| > 0 && |buf| >= HeaderLen(buf[0])
  {
    if buf[0] != MARKER_V1 then
      Header(10, if buf[2] % 2 == 1 then SIGNATURE_LEN else 0, buf[4], buf[5], buf[6],
             buf[7] as nat + 0x100 * (buf[8] as nat) + 0x10000 * (buf[9] as nat))
    else
      Header(6, 0, buf[2], buf[3], buf[4], buf[5])
  }

  function HeaderLen(marker: Byte): nat {
    if marker != MARKER_V1 then 10 else 6
  }

  /** MAVLink.decode, with no signing key set. */
  function Decode(reg: Registry, buf: seq<Byte>): Verdict
    requires |buf| > 0 && Sound(reg)
  {
    if |buf| < HeaderLen(buf[0]) then Bad(buf, BadHeader)
    else if buf[0] != MARKER_V1 && buf[0] != MARKER_V2 then Bad(buf, BadPrefix)
    else
      var h := HeaderOf(buf);
      var end := |buf| - (2 + h.signature);
      if buf[1] != end - h.len then Bad(buf, BadLength)
      else if h.id !in reg then Bad(buf, UnknownId)
      else
        var spec := reg[h.id];
        if buf[end..end + 2] != Checksum(buf[1..end] + [spec.crcExtra]) then Bad(buf, BadCrc)
        else Good(h.seqNo, h.system, h.component, Message(h.id, DecodeBody(spec, buf[h.len..end])))
  }

  // --------------------------------------------------------- one frame, there and back

  lemma {:induction false} UnpackedPacked(packed: seq<nat>, widths: seq<nat>, fields: seq<seq<Byte>>)
    requires |packed| == |widths| && forall j :: 0 <= j < |packed| ==> packed[j] < |fields|
    requires forall j :: 0 <= j < |packed| ==> |fields[packed[j]]| == widths[j]
    ensures |Packed(packed, fields)| == Total(widths)
    ensures forall j :: 0 <= j < |packed| ==> Unpacked(widths, Packed(packed, fields))[j] == fields[packed[j]]
  {
    if packed != [] {
      UnpackedPacked(packed[1..], widths[1..], fields);
      var buf := Packed(packed, fields);
      assert buf[..widths[0]] == fields[packed[0]];
      assert buf[widths[0]..] == Packed(packed[1..], fields);
    }
  }

  /** Unpacking and reordering recover every field of a packed message. */
  lemma {:induction false} BodyRoundTrip(spec: Spec, fields: seq<seq<Byte>>)
    requires Shaped(spec, fields)
    ensures |Packed(spec.packed, fields)| == Total(spec.widths)
    ensures DecodeBody(spec, Packed(spec.packed, fields)) == fields
  {
    UnpackedPacked(spec.packed, spec.widths, fields);
    var buf := Packed(spec.packed, fields);
    assert FitTo(buf, Total(spec.widths)) == buf;
  }

  /** The frame of one message. */
  function FrameOf(reg: Registry, m: Message, seqNo: Byte, system: Byte, component: Byte): seq<Byte>
    requires Fits(reg, m)
  {
    var spec := reg[m.id];
    BodyRoundTrip(spec, m.fields);
    Frame(spec.crcExtra, m.id, Packed(spec.packed, m.fields), seqNo, system, component)
  }

  /**
   * Decoding a frame gives back what was packed, also when zeros were cut off
   * its payload.
   */
  lemma FrameRoundTrip(reg: Registry, m: Message, payload: seq<Byte>, seqNo: Byte, system: Byte, component: Byte)
    requires Sound(reg) && Fits(reg, m)
    requires |payload| < 256
    requires FitTo(payload, Total(reg[m.id].widths)) == Packed(reg[m.id].packed, m.fields)
    ensures Decode(reg, Frame(reg[m.id].crcExtra, m.id, payload, seqNo, system, component))
         == Good(seqNo, system, component, m)
  {
    hide Checksum, Packed, DecodeBody;
    var spec := reg[m.id];
    var buf := Frame(spec.crcExtra, m.id, payload, seqNo, system, component);
    var body := [|payload|, seqNo, system, component, m.id] + payload;
    var end := |buf| - 2;
    assert buf[1..end] == body;
    assert buf[6..end] == payload;
    SameBody(spec, payload, m.fields);
  }

  lemma {:induction false} SameBody(spec: Spec, payload: seq<Byte>, fields: seq<seq<Byte>>)
    requires Shaped(spec, fields)
    requires FitTo(payload, Total(spec.widths)) == Packed(spec.packed, fields)
    ensures DecodeBody(spec, payload) == fields
  {
    BodyRoundTrip(spec, fields);
    assert FitTo(Packed(spec.packed, fields), Total(spec.widths)) == Packed(spec.packed, fields);
  }

  lemma MessageRoundTrip(reg: Registry, m: Message, seqNo: Byte, system: Byte, component: Byte)
    requires Sound(reg) && Fits(reg, m)
    ensures Decode(reg, FrameOf(reg, m, seqNo, system, component)) == Good(seqNo, system, component, m)
  {
    var spec := reg[m.id];
    BodyRoundTrip(spec, m.fields);
    var payload := Packed(spec.packed, m.fields);
    assert FitTo(payload, Total(spec.widths)) == payload;
    FrameRoundTrip(reg, m, payload, seqNo, system, component);
  }

  // -------------------------------------------------------------- damaged frames

  lemma WordsConcat(a: seq<Byte>, b: seq<Byte>)
    ensures Words(a + b) == Words(a) + Words(b)
  {
  }

  lemma ChecksumSeesBurst(p: seq<Byte>, b: seq<Byte>, d: seq<Byte>, q: seq<Byte>)
    requires |b| == |d| == 2 && b != d
    ensures Checksum(p + b + q) != Checksum(p + d + q)
  {
    hide Word, Octet;
    var a := Crc.INITIAL;
    WordsConcat(p + b, q);
    WordsConcat(p, b);
    WordsConcat(p + d, q);
    WordsConcat(p, d);
    WordOctet(b[0]);
    WordOctet(b[1]);
    WordOctet(d[0]);
    WordOctet(d[1]);
    assert Words(b) == [Word(b[0]), Word(b[1])] && Words(d) == [Word(d[0]), Word(d[1])];
    Crc.BurstIsDetected(a, Words(p), Word(b[0]), Word(b[1]), Word(d[0]), Word(d[1]), Words(q));
    var u, v := Crc.Crc(a, Words(p + b + q)), Crc.Crc(a, Words(p + d + q));
    if Checksum(p + b + q) == Checksum(p + d + q) {
      assert Checksum(p + b + q)[0] == Checksum(p + d + q)[0] && Checksum(p + b + q)[1] == Checksum(p + d + q)[1];
      OctetInjective(u, v);
    }
  }

  /** A frame around the two bytes that may change. */
  lemma Slices(p: seq<Byte>, b: seq<Byte>, q: seq<Byte>, c: Byte)
    requires |p| >= 2 && |q| >= 2
    ensures var f := p + b + q; var end := |f| - 2;
      && f[0] == p[0] && f[1] == p[1] && f[end..] == q[|q| - 2..]
      && f[1..end] + [c] == p[1..] + b + (q[..|q| - 2] + [c])
  {
    var f := p + b + q;
    assert f[1..|f| - 2] == p[1..] + b + q[..|q| - 2];
  }

  lemma FrameParts(crcExtra: Byte, id: Byte, payload: seq<Byte>, seqNo: Byte, system: Byte, component: Byte)
    requires |payload| < 256
    ensures var f := Frame(crcExtra, id, payload, seqNo, system, component);
      && |f| == 8 + |payload| && f[0] == MARKER_V1 && f[1] == |payload|
      && f[|f| - 2..] == Checksum(f[1..|f| - 2] + [crcExtra])
  {
    hide Checksum;
    var f := Frame(crcExtra, id, payload, seqNo, system, component);
    assert f[1..|f| - 2] == [|payload|, seqNo, system, component, id] + payload;
  }

  /** A frame in shape but for its checksum. */
  lemma WrongSum(reg: Registry, f: seq<Byte>, id: Byte)
    requires Sound(reg) && id in reg && |f| >= 8 && f[0] == MARKER_V1 && |f| - 8 == f[1] && f[5] == id
    requires f[|f| - 2..] != Checksum(f[1..|f| - 2] + [reg[id].crcExtra])
    ensures Decode(reg, f) == Bad(f, BadCrc)
  {
    hide Checksum, DecodeBody;
    assert f[|f| - 2..|f|] == f[|f| - 2..];
  }

  /**
   * A frame with up to two neighbouring bytes changed, other than marker,
   * length, id and checksum, is never taken for a message.
   */
  lemma DamageIsDetected(reg: Registry, crcExtra: Byte, id: Byte, payload: seq<Byte>, seqNo: Byte, system: Byte,
                         component: Byte, p: seq<Byte>, b: seq<Byte>, d: seq<Byte>, q: seq<Byte>)
    requires Sound(reg) && id in reg && reg[id].crcExtra == crcExtra && |payload| < 256
    requires Frame(crcExtra, id, payload, seqNo, system, component) == p + b + q
    requires |b| == |d| == 2 && b != d && |p| >= 2 && |q| >= 2
    requires (p + d + q)[5] == id
    ensures Decode(reg, p + d + q) == Bad(p + d + q, BadCrc)
  {
    FrameParts(crcExtra, id, payload, seqNo, system, component);
    hide Checksum, Decode, Frame;
    Slices(p, b, q, crcExtra);
    Slices(p, d, q, crcExtra);
    ChecksumSeesBurst(p[1..], b, d, q[..|q| - 2] + [crcExtra]);
    WrongSum(reg, p + d + q, id);
  }
}
