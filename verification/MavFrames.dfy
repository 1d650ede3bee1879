/** What makes a MAVLink frame a message, and frames of version 2, which the parser takes although the sender writes version 1. */
module MavFrames {
  import opened Mavlink
  import opened MavParser

  /** What the trailer of a version 2 frame adds: a signature, if the lowest flag is set. */
  ghost predicate Signed(flags: Byte, signature: seq<Byte>) {
    |signature| == if flags % 2 == 1 then 13 else 0
  }

  /** The bytes of a version 2 frame between marker and checksum. */
  function Body(id: nat, payload: seq<Byte>, flags: Byte, compat: Byte, seqNo: Byte, system: Byte, component: Byte): seq<Byte>
    requires |payload| < 256 && id < 0x100_0000
  {
    [|payload|, flags, compat, seqNo, system, component, id % 0x100, id / 0x100 % 0x100, id / 0x1_0000] + payload
  }

  function FrameV2(crcExtra: Byte, body: seq<Byte>, signature: seq<Byte>): seq<Byte> {
    [MARKER_V2] + body + Checksum(body + [crcExtra]) + signature
  }

  lemma Digits(id: nat)
    requires id < 0x100_0000
    ensures id == id % 0x100 + 0x100 * (id / 0x100 % 0x100) + 0x1_0000 * (id / 0x1_0000)
  {
  }

  /** Where the parts of the frame are. */
  lemma Parts(body: seq<Byte>, sum: seq<Byte>, signature: seq<Byte>)
    requires |body| >= 9 && |sum| == 2
    ensures var f := [MARKER_V2] + body + sum + signature; var end := 1 + |body|;
      && |f| == |body| + 3 + |signature| && f[1..end] == body && f[end..end + 2] == sum && f[10..end] == body[9..]
      && f[0] == MARKER_V2 && forall i :: 0 <= i < 9 ==> f[1 + i] == body[i]
  {
  }

  /** The frame is one item to the parser, whatever follows. */
  lemma FrameIsItem(crcExtra: Byte, id: nat, payload: seq<Byte>, flags: Byte, compat: Byte, seqNo: Byte, system: Byte,
                    component: Byte, signature: seq<Byte>, more: seq<Byte>)
    requires |payload| < 256 && id < 0x100_0000 && Signed(flags, signature)
    ensures var f := FrameV2(crcExtra, Body(id, payload, flags, compat, seqNo, system, component), signature);
      f[0] == 0xfd && Complete(f) && ItemLength(f + more) == |f| == 12 + |payload| + |signature|
  {
    var body := Body(id, payload, flags, compat, seqNo, system, component);
    Parts(body, Checksum(body + [crcExtra]), signature);
    hide Checksum;
    var f := FrameV2(crcExtra, body, signature);
    assert f[1] == body[0] && f[2] == body[1] && (f + more)[2] == f[2];
  }

  lemma HeaderIs(id: nat, payload: seq<Byte>, flags: Byte, compat: Byte, seqNo: Byte, system: Byte, component: Byte,
                 sum: seq<Byte>, signature: seq<Byte>)
    requires |payload| < 256 && id < 0x100_0000 && Signed(flags, signature) && |sum| == 2
    ensures var f := [MARKER_V2] + Body(id, payload, flags, compat, seqNo, system, component) + sum + signature;
      HeaderOf(f) == Header(10, |signature|, seqNo, system, component, id) && f[1] == |payload| && f[2] == flags
  {
    var body := Body(id, payload, flags, compat, seqNo, system, component);
    Parts(body, sum, signature);
    Digits(id);
    var f := [MARKER_V2] + body + sum + signature;
    assert f[1] == body[0] && f[2] == body[1] && f[4] == body[3] && f[5] == body[4] && f[6] == body[5];
    assert f[7] == body[6] && f[8] == body[7] && f[9] == body[8];
  }

  /** Decoding it gives back the message, the sender and the number; a flag other than the signature's is refused. */
  lemma V2RoundTrip(reg: Registry, m: Message, payload: seq<Byte>, flags: Byte, compat: Byte, seqNo: Byte, system: Byte,
                    component: Byte, signature: seq<Byte>)
    requires Sound(reg) && m.id in reg && m.id < 0x100_0000 && Shaped(reg[m.id], m.fields)
    requires |payload| < 256 && FitTo(payload, Total(reg[m.id].widths)) == Packed(reg[m.id].packed, m.fields)
    requires Signed(flags, signature)
    ensures var f := FrameV2(reg[m.id].crcExtra, Body(m.id, payload, flags, compat, seqNo, system, component), signature);
      Judge(reg, f) == if flags <= 1 then Good(seqNo, system, component, m) else Bad(f, BadFlags)
  {
    var spec := reg[m.id];
    var body := Body(m.id, payload, flags, compat, seqNo, system, component);
    var f := FrameV2(spec.crcExtra, body, signature);
    Parts(body, Checksum(body + [spec.crcExtra]), signature);
    SameBody(spec, payload, m.fields);
    hide Checksum, Packed, DecodeBody, Shaped, Sound;
    HeaderIs(m.id, payload, flags, compat, seqNo, system, component, Checksum(body + [spec.crcExtra]), signature);
    assert body[9..] == payload;
    hide HeaderOf, Body;
  }

  // ------------------------------------------------------------- what makes a frame bad

  /** Number of bytes behind the payload. */
  ghost function Trailer(item: seq<Byte>): nat
    requires Complete(item)
  {
    if item[0] == MARKER_V2 && item[2] % 2 == 1 then 15 else 2
  }

  ghost function IdIn(item: seq<Byte>): nat
    requires Complete(item)
  {
    if item[0] == MARKER_V2 then item[7] as nat + 0x100 * (item[8] as nat) + 0x1_0000 * (item[9] as nat) else item[5]
  }

  /** The checksum over everything but the marker, with the byte of the class, is the one in the frame. */
  ghost predicate SumFits(item: seq<Byte>, crcExtra: Byte)
    requires Complete(item)
  {
    var end := |item| - Trailer(item);
    item[end..end + 2] == Checksum(item[1..end] + [crcExtra])
  }

  /** A whole frame is a message exactly if it has no unknown flag, its class is known and its checksum fits. */
  lemma VerdictIs(reg: Registry, item: seq<Byte>)
    requires Sound(reg) && Complete(item)
    ensures var v := Judge(reg, item);
      if item[0] == MARKER_V2 && item[2] > 1 then v == Bad(item, BadFlags)
      else if IdIn(item) !in reg then v == Bad(item, UnknownId)
      else if !SumFits(item, reg[IdIn(item)].crcExtra) then v == Bad(item, BadCrc)
      else v.Good? && v.message.id == IdIn(item)
  {
    hide Checksum, DecodeBody, Sound;
  }

  // ---------------------------------------------------------------- bytes between frames

  /** How many errors a strict parser raises over bytes handed to it one by one, and what it remembers then. */
  ghost function Errors(reg: Registry, prefixError: bool, u: seq<Byte>): (int, bool)
    requires Sound(reg)
    decreases |u|
  {
    if u == [] then (0, prefixError)
    else
      var (n, error) := Errors(reg, prefixError, u[..|u| - 1]);
      var last := u[|u| - 1..];
      (n + if Answer(reg, false, error, last).Raised? then 1 else 0, Remembered(false, error, last))
  }

  /** Bytes that are no markers are taken one by one; strict parsing complains once, until a marker comes. */
  lemma {:induction false} GarbageIsReportedOnce(reg: Registry, prefixError: bool, g: seq<Byte>)
    requires Sound(reg) && Garbage(g) && g != []
    ensures Errors(reg, prefixError, g) == (if prefixError then 0 else 1, true)
    decreases |g|
  {
    var last := g[|g| - 1..];
    assert last[..1] == last && Judge(reg, last) == Bad(last, BadPrefix);
    if |g| > 1 {
      GarbageIsReportedOnce(reg, prefixError, g[..|g| - 1]);
    }
  }

  /** A marker ends that, and with robust parsing every such byte is reported. */
  lemma MarkersEndGarbage(reg: Registry, prefixError: bool, u: seq<Byte>)
    requires Sound(reg) && u != []
    ensures IsMarker(u[0]) ==> !Remembered(false, prefixError, u)
    ensures !IsMarker(u[0]) ==> ItemLength(u) == 1 && Answer(reg, true, prefixError, u) == Returned(Bad(u[..1], BadPrefix))
  {
  }
}
