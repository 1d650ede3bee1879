/**
 * The MAVLink stream: the class MAVLink in software/linux/gateway/mavlink.py,
 * with its sender and its streaming parser, against a specification that cuts
 * a whole stream at once.
 */
module MavParser {

  import opened Mavlink

  // ------------------------------------------------------- cutting a whole stream

  predicate IsMarker(b: Byte) {
    b == MARKER_V1 || b == MARKER_V2
  }

  /** The length of a frame by its first three bytes. */
  function FrameLength(u: seq<Byte>): (r: nat)
    requires |u| >= 3
    ensures r >= 8
  {
    if u[0] == MARKER_V2 then u[1] as nat + 12 + (if u[2] % 2 == 1 then SIGNATURE_LEN else 0)
    else u[1] as nat + 8
  }

  /** The size of the item at the head of unread bytes; zero when it is not complete. */
  function ItemLength(u: seq<Byte>): (r: nat)
    ensures r <= |u|
  {
    if u == [] then 0
    else if !IsMarker(u[0]) then 1
    else if |u| < 3 || |u| < FrameLength(u) then 0
    else FrameLength(u)
  }

  /** An item that is a whole frame, good or bad. */
  ghost predicate Complete(item: seq<Byte>) {
    |item| >= 3 && IsMarker(item[0]) && |item| == FrameLength(item)
  }

  /** What is made of an item. */
  function Judge(reg: Registry, item: seq<Byte>): Verdict
    requires |item| > 0 && Sound(reg)
  {
    if !IsMarker(item[0]) then Bad(item, BadPrefix)
    else if item[0] == MARKER_V2 && |item| >= 3 && item[2] > 1 then Bad(item, BadFlags)
    else Decode(reg, item)
  }

  ghost function Items(reg: Registry, u: seq<Byte>): seq<Verdict>
    requires Sound(reg)
    decreases |u|
  {
    var n := ItemLength(u);
    if n == 0 then [] else [Judge(reg, u[..n])] + Items(reg, u[n..])
  }

  ghost function Rest(u: seq<Byte>): seq<Byte>
    decreases |u|
  {
    var n := ItemLength(u);
    if n == 0 then u else Rest(u[n..])
  }

  /** The messages among verdicts. */
  function Goods(vs: seq<Verdict>): seq<Verdict> {
    if vs == [] then [] else (if vs[0].Good? then [vs[0]] else []) + Goods(vs[1..])
  }

  /** An item once complete is not changed by what arrives later. */
  lemma MoreChangesNothing(u: seq<Byte>, v: seq<Byte>)
    requires ItemLength(u) > 0
    ensures ItemLength(u + v) == ItemLength(u)
    ensures (u + v)[..ItemLength(u)] == u[..ItemLength(u)]
    ensures (u + v)[ItemLength(u)..] == u[ItemLength(u)..] + v
  {
  }

  /** A stream may be parsed in pieces: what one piece leaves is taken up with the next. */
  lemma {:induction false} PiecesCompose(reg: Registry, u: seq<Byte>, v: seq<Byte>)
    requires Sound(reg)
    ensures Items(reg, u + v) == Items(reg, u) + Items(reg, Rest(u) + v)
    ensures Rest(u + v) == Rest(Rest(u) + v)
    decreases |u|
  {
    hide Judge;
    var n := ItemLength(u);
    if n > 0 {
      MoreChangesNothing(u, v);
      PiecesCompose(reg, u[n..], v);
    }
  }

  function Flatten(chunks: seq<seq<Byte>>): seq<Byte> {
    if chunks == [] then [] else chunks[0] + Flatten(chunks[1..])
  }

  /** Feeding chunks one by one, each drained before the next. */
  ghost function FeedItems(reg: Registry, left: seq<Byte>, chunks: seq<seq<Byte>>): seq<Verdict>
    requires Sound(reg)
    decreases |chunks|
  {
    if chunks == [] then []
    else Items(reg, left + chunks[0]) + FeedItems(reg, Rest(left + chunks[0]), chunks[1..])
  }

  ghost function FeedRest(left: seq<Byte>, chunks: seq<seq<Byte>>): seq<Byte>
    decreases |chunks|
  {
    if chunks == [] then left else FeedRest(Rest(left + chunks[0]), chunks[1..])
  }

  /** However a stream is cut into chunks, the same items come out and the same bytes are left. */
  lemma {:induction false} ChunksDoNotMatter(reg: Registry, left: seq<Byte>, chunks: seq<seq<Byte>>)
    requires Sound(reg) && ItemLength(left) == 0
    ensures FeedItems(reg, left, chunks) == Items(reg, left + Flatten(chunks))
    ensures FeedRest(left, chunks) == Rest(left + Flatten(chunks))
    decreases |chunks|
  {
    if chunks == [] {
      assert left + Flatten(chunks) == left;
    } else {
      var u, v := left + chunks[0], Flatten(chunks[1..]);
      assert left + Flatten(chunks) == u + v;
      PiecesCompose(reg, u, v);
      RestIsSettled(u);
      ChunksDoNotMatter(reg, Rest(u), chunks[1..]);
    }
  }

  lemma {:induction false} RestIsSettled(u: seq<Byte>)
    ensures ItemLength(Rest(u)) == 0
    decreases |u|
  {
    var n := ItemLength(u);
    if n > 0 {
      RestIsSettled(u[n..]);
    }
  }

  /** One more byte completes an item only if that item then is all there is. */
  lemma OneByteCompletesAll(u: seq<Byte>, c: Byte)
    requires ItemLength(u) == 0
    ensures ItemLength(u + [c]) in {0, |u| + 1}
  {
  }

  // ------------------------------------------------------------ what senders write

  ghost predicate Garbage(g: seq<Byte>) {
    forall k :: 0 <= k < |g| ==> !IsMarker(g[k])
  }

  lemma {:induction false} GarbageSkipped(reg: Registry, g: seq<Byte>, s: seq<Byte>)
    requires Sound(reg) && Garbage(g)
    ensures Goods(Items(reg, g + s)) == Goods(Items(reg, s))
    ensures Rest(g + s) == Rest(s)
    decreases |g|
  {
    if g == [] {
      assert g + s == s;
    } else {
      assert (g + s)[1..] == g[1..] + s;
      GarbageSkipped(reg, g[1..], s);
      var vs := Items(reg, g + s);
      assert vs[1..] == Items(reg, g[1..] + s);
    }
  }

  lemma {:induction false} FrameDelivered(reg: Registry, m: Message, seqNo: Byte, system: Byte, component: Byte,
                                          s: seq<Byte>)
    requires Sound(reg) && Fits(reg, m)
    ensures var f := FrameOf(reg, m, seqNo, system, component);
            && Items(reg, f + s) == [Good(seqNo, system, component, m)] + Items(reg, s)
            && Rest(f + s) == Rest(s)
  {
    hide Decode, Checksum;
    var f := FrameOf(reg, m, seqNo, system, component);
    assert ItemLength(f) == |f|;
    MessageRoundTrip(reg, m, seqNo, system, component);
    MoreChangesNothing(f, s);
    assert f[..|f|] == f;
    assert f[|f|..] + s == s;
  }

  /** A message sent after some bytes of noise. */
  datatype Sent = Sent(noise: seq<Byte>, message: Message)

  ghost predicate Sendable(reg: Registry, list: seq<Sent>) {
    forall k :: 0 <= k < |list| ==> Garbage(list[k].noise) && Fits(reg, list[k].message)
  }

  /** The stream of a sender whose counter stands at `seqNo`. */
  ghost function Stream(reg: Registry, list: seq<Sent>, seqNo: Byte, system: Byte, component: Byte): seq<Byte>
    requires Sendable(reg, list)
  {
    if list == [] then []
    else
      var frame := FrameOf(reg, list[0].message, seqNo, system, component);
      list[0].noise + (frame + Stream(reg, list[1..], (seqNo + 1) % 256, system, component))
  }

  ghost function Deliveries(list: seq<Sent>, seqNo: Byte, system: Byte, component: Byte): seq<Verdict> {
    if list == [] then [] else
      [Good(seqNo, system, component, list[0].message)] + Deliveries(list[1..], (seqNo + 1) % 256, system, component)
  }

  /** One message of a stream with the noise before it. */
  lemma {:induction false} OneDelivered(reg: Registry, sent: Sent, seqNo: Byte, system: Byte, component: Byte,
                                        s: seq<Byte>)
    requires Sound(reg) && Garbage(sent.noise) && Fits(reg, sent.message)
    ensures var f := FrameOf(reg, sent.message, seqNo, system, component);
            && Goods(Items(reg, sent.noise + (f + s)))
               == [Good(seqNo, system, component, sent.message)] + Goods(Items(reg, s))
            && Rest(sent.noise + (f + s)) == Rest(s)
  {
    hide FrameOf;
    var f := FrameOf(reg, sent.message, seqNo, system, component);
    FrameDelivered(reg, sent.message, seqNo, system, component, s);
    GarbageSkipped(reg, sent.noise, f + s);
    var v := Good(seqNo, system, component, sent.message);
    assert ([v] + Items(reg, s))[1..] == Items(reg, s);
  }

  /** Sending one more message appends its frame under the next number. */
  lemma {:induction false} StreamGrows(reg: Registry, list: seq<Sent>, more: Sent, seqNo: Byte, system: Byte,
                                       component: Byte)
    requires Sendable(reg, list + [more]) && Sendable(reg, list) && Fits(reg, more.message)
    ensures Stream(reg, list + [more], seqNo, system, component)
         == Stream(reg, list, seqNo, system, component)
          + (more.noise + FrameOf(reg, more.message, (seqNo + |list|) % 256, system, component))
    decreases |list|
  {
    hide FrameOf, Fits;
    var all := list + [more];
    if list == [] {
      assert all[1..] == [];
      var f := FrameOf(reg, more.message, seqNo, system, component);
      assert f + [] == f;
    } else {
      assert all[1..] == list[1..] + [more];
      var next: Byte := (seqNo + 1) % 256;
      StreamGrows(reg, list[1..], more, next, system, component);
      NextNumber(seqNo, |list|);
      Regroup(list[0].noise, FrameOf(reg, list[0].message, seqNo, system, component),
              Stream(reg, list[1..], next, system, component),
              more.noise + FrameOf(reg, more.message, (seqNo + |list|) % 256, system, component));
    }
  }

  lemma NextNumber(seqNo: Byte, n: nat)
    requires n > 0
    ensures ((seqNo + 1) % 256 + (n - 1)) % 256 == (seqNo + n) % 256
  {
  }

  lemma Regroup(noise: seq<Byte>, f: seq<Byte>, s: seq<Byte>, t: seq<Byte>)
    ensures noise + (f + (s + t)) == (noise + (f + s)) + t
  {
  }

  /** Every message of a stream comes out, once, in order, with its number, and no byte is left over. */
  lemma {:induction false} StreamRoundTrip(reg: Registry, list: seq<Sent>, seqNo: Byte, system: Byte, component: Byte,
                                           tail: seq<Byte>)
    requires Sound(reg) && Sendable(reg, list) && Garbage(tail)
    ensures Goods(Items(reg, Stream(reg, list, seqNo, system, component) + tail))
         == Deliveries(list, seqNo, system, component)
    ensures Rest(Stream(reg, list, seqNo, system, component) + tail) == []
    decreases |list|
  {
    hide FrameOf;
    if list == [] {
      GarbageSkipped(reg, tail, []);
      assert tail + [] == tail == [] + tail;
    } else {
      hide Items, Rest, Goods;
      var next: Byte := (seqNo + 1) % 256;
      var f := FrameOf(reg, list[0].message, seqNo, system, component);
      var s := Stream(reg, list[1..], next, system, component);
      StreamRoundTrip(reg, list[1..], next, system, component, tail);
      OneDelivered(reg, list[0], seqNo, system, component, s + tail);
      assert list[0].noise + (f + s) + tail == list[0].noise + (f + (s + tail));
    }
  }

  /** The same, with the stream arriving in any chunks at an idle receiver. */
  lemma {:induction false} ChunkedRoundTrip(reg: Registry, list: seq<Sent>, seqNo: Byte, system: Byte, component: Byte,
                                            tail: seq<Byte>, chunks: seq<seq<Byte>>)
    requires Sound(reg) && Sendable(reg, list) && Garbage(tail)
    requires Flatten(chunks) == Stream(reg, list, seqNo, system, component) + tail
    ensures Goods(FeedItems(reg, [], chunks)) == Deliveries(list, seqNo, system, component)
    ensures FeedRest([], chunks) == []
  {
    ChunksDoNotMatter(reg, [], chunks);
    assert [] + Flatten(chunks) == Flatten(chunks);
    StreamRoundTrip(reg, list, seqNo, system, component, tail);
  }

  // ------------------------------------------------------------- the MAVLink class

  /** What parse_char does with one item: return a message, raise MAVError, or return None. */
  datatype Outcome = Quiet | Returned(verdict: Verdict) | Raised(reason: Reason)

  function Told(robust: bool, prefixError: bool, v: Verdict): Outcome {
    if v.Good? || robust then Returned(v)
    else if v.reason == BadPrefix && prefixError then Quiet
    else Raised(v.reason)
  }

  ghost function Answer(reg: Registry, robust: bool, prefixError: bool, u: seq<Byte>): Outcome
    requires Sound(reg)
  {
    if ItemLength(u) == 0 then Quiet else Told(robust, prefixError, Judge(reg, u[..ItemLength(u)]))
  }

  /** Only an error about a prefix is remembered, until the next byte that is none. */
  ghost function Remembered(robust: bool, prefixError: bool, u: seq<Byte>): bool {
    if u != [] && !IsMarker(u[0]) then prefixError || !robust else false
  }

  /** What one call of parse_buffer gives: the list it returns, or the error that escapes from it. */
  datatype Batch = Done(messages: seq<Verdict>) | Failed(reason: Reason)

  ghost function BatchOf(reg: Registry, robust: bool, prefixError: bool, u: seq<Byte>, got: seq<Verdict>): Batch
    requires Sound(reg)
    decreases |u|
  {
    match Answer(reg, robust, prefixError, u)
    case Quiet => Done(got)
    case Raised(reason) => Failed(reason)
    case Returned(v) =>
      BatchOf(reg, robust, Remembered(robust, prefixError, u), u[ItemLength(u)..], got + [v])
  }

  ghost function BatchRest(reg: Registry, robust: bool, prefixError: bool, u: seq<Byte>): seq<Byte>
    requires Sound(reg)
    decreases |u|
  {
    var rest := u[ItemLength(u)..];
    if Answer(reg, robust, prefixError, u).Returned? then
      BatchRest(reg, robust, Remembered(robust, prefixError, u), rest)
    else rest
  }

  ghost predicate AllGood(vs: seq<Verdict>) {
    forall k :: 0 <= k < |vs| ==> vs[k].Good?
  }

  /** With robust parsing one call of parse_buffer drains the buffer. */
  lemma {:induction false} RobustDrains(reg: Registry, prefixError: bool, u: seq<Byte>, got: seq<Verdict>)
    requires Sound(reg)
    ensures BatchOf(reg, true, prefixError, u, got) == Done(got + Items(reg, u))
    ensures BatchRest(reg, true, prefixError, u) == Rest(u)
    decreases |u|
  {
    hide Judge, Sound;
    var n := ItemLength(u);
    if n > 0 {
      var v := Judge(reg, u[..n]);
      RobustDrains(reg, Remembered(true, prefixError, u), u[n..], got + [v]);
    }
  }

  /** Without it, exactly when every complete item is a valid message; otherwise messages are lost or held back. */
  lemma {:induction false} StrictDrains(reg: Registry, prefixError: bool, u: seq<Byte>, got: seq<Verdict>)
    requires Sound(reg)
    ensures BatchOf(reg, false, prefixError, u, got) == Done(got + Items(reg, u)) <==> AllGood(Items(reg, u))
    ensures AllGood(Items(reg, u)) ==> BatchRest(reg, false, prefixError, u) == Rest(u)
    decreases |u|
  {
    hide Judge;
    var n := ItemLength(u);
    if n > 0 {
      var v := Judge(reg, u[..n]);
      var vs := Items(reg, u);
      assert vs[0] == v && vs[1..] == Items(reg, u[n..]);
      assert got + vs == (got + [v]) + vs[1..];
      StrictDrains(reg, Remembered(false, prefixError, u), u[n..], got + [v]);
      assert v.Good? && AllGood(vs[1..]) ==> AllGood(vs);
      assert AllGood(vs) ==> AllGood(vs[1..]);
    }
  }

  class MavLink {
    const reg: Registry
    const srcSystem: Byte
    const srcComponent: Byte
    var file: seq<Byte>
    var seqNo: Byte
    var buf: seq<Byte>
    var bufIndex: nat
    var expectedLength: nat
    var havePrefixError: bool
    var robustParsing: bool

    ghost predicate Valid()
      reads this
    {
      Sound(reg) && bufIndex <= |buf| && expectedLength >= 8
    }

    function Unread(): seq<Byte>
      requires bufIndex <= |buf|
      reads this
    {
      buf[bufIndex..]
    }

    constructor (reg: Registry, srcSystem: Byte, srcComponent: Byte)
      requires Sound(reg)
      ensures Valid() && Unread() == [] && file == [] && seqNo == 0 && !robustParsing && !havePrefixError
      ensures this.reg == reg && this.srcSystem == srcSystem && this.srcComponent == srcComponent
    {
      this.reg, this.srcSystem, this.srcComponent := reg, srcSystem, srcComponent;
      file, seqNo, buf, bufIndex, expectedLength := [], 0, [], 0, 8;
      havePrefixError, robustParsing := false, false;
    }

    /** MAVLink_message.pack. */
    method Pack(m: Message) returns (msgbuf: seq<Byte>)
      requires Fits(reg, m)
      ensures msgbuf == FrameOf(reg, m, seqNo, srcSystem, srcComponent)
    {
      var spec := reg[m.id];
      BodyRoundTrip(spec, m.fields);
      var payload := Packed(spec.packed, m.fields);
      hide Checksum, Packed;
      var mlen: Byte, id: Byte := |payload|, m.id;
      msgbuf := [MARKER_V1, mlen, seqNo, srcSystem, srcComponent, id] + payload;
      ghost var body := [mlen, seqNo, srcSystem, srcComponent, id] + payload;
      assert msgbuf[1..] == body && msgbuf == [MARKER_V1] + body;
      msgbuf := msgbuf + Checksum(msgbuf[1..] + [spec.crcExtra]);
    }

    method Send(m: Message)
      requires Fits(reg, m)
      modifies this`file, this`seqNo
      ensures file == old(file) + FrameOf(reg, m, old(seqNo), srcSystem, srcComponent)
      ensures seqNo == (old(seqNo) + 1) % 256
    {
      var frame := Pack(m);
      file := file + frame;
      seqNo := (seqNo + 1) % 256;
    }

    /** The part of __parse_char_legacy past the test of the prefix. */
    method ParseFrame(headerLen: nat) returns (o: Outcome)
      requires Valid() && (Unread() != [] ==> IsMarker(Unread()[0]))
      requires headerLen == if Unread() != [] && Unread()[0] == MARKER_V2 then 10 else 6
      modifies this`bufIndex, this`expectedLength
      ensures Valid()
      ensures o == Answer(reg, robustParsing, havePrefixError, old(Unread()))
      ensures Unread() == old(Unread())[ItemLength(old(Unread()))..]
    {
      hide Decode;
      ghost var u := Unread();
      var magic, incompatFlags := 0, 0;
      if |buf| - bufIndex >= 3 {
        magic, expectedLength, incompatFlags := buf[bufIndex], buf[bufIndex + 1], buf[bufIndex + 2];
        if magic == MARKER_V2 && incompatFlags % 2 == 1 {
          expectedLength := expectedLength + SIGNATURE_LEN;
        }
        expectedLength := expectedLength + headerLen + 2;
      }
      if expectedLength >= headerLen + 2 && |buf| - bufIndex >= expectedLength {
        assert |u| >= 3 && expectedLength == FrameLength(u) == ItemLength(u);
        var mbuf := buf[bufIndex..bufIndex + expectedLength];
        assert mbuf == u[..expectedLength];
        bufIndex := bufIndex + expectedLength;
        expectedLength := headerLen + 2;
        var v := if magic == MARKER_V2 && incompatFlags > 1 then Bad(mbuf, BadFlags) else Decode(reg, mbuf);
        DecodesPastPrefix(reg, mbuf);
        assert v == Judge(reg, mbuf);
        if v.Good? || robustParsing {
          return Returned(v);
        }
        return Raised(v.reason);
      }
      return Quiet;
    }

    /** __parse_char_legacy. */
    method ParseLegacy() returns (o: Outcome)
      requires Valid()
      modifies this`bufIndex, this`expectedLength, this`havePrefixError
      ensures Valid()
      ensures o == Answer(reg, robustParsing, old(havePrefixError), old(Unread()))
      ensures Unread() == old(Unread())[ItemLength(old(Unread()))..]
      ensures havePrefixError == Remembered(robustParsing, old(havePrefixError), old(Unread()))
    {
      hide Decode;
      ghost var u := Unread();
      var headerLen := if |buf| - bufIndex >= 1 && buf[bufIndex] == MARKER_V2 then 10 else 6;
      if |buf| - bufIndex >= 1 && buf[bufIndex] != MARKER_V1 && buf[bufIndex] != MARKER_V2 {
        var magic := buf[bufIndex];
        assert [magic] == u[..1];
        bufIndex := bufIndex + 1;
        if robustParsing {
          expectedLength := headerLen + 2;
          return Returned(Bad([magic], BadPrefix));
        }
        if havePrefixError {
          return Quiet;
        }
        havePrefixError := true;
        return Raised(BadPrefix);
      }
      havePrefixError := false;
      SamePastPrefix(reg, robustParsing, old(havePrefixError), false, u);
      o := ParseFrame(headerLen);
    }

    method ParseChar(c: seq<Byte>) returns (o: Outcome)
      requires Valid()
      modifies this`buf, this`bufIndex, this`expectedLength, this`havePrefixError
      ensures Valid()
      ensures o == Answer(reg, robustParsing, old(havePrefixError), old(Unread()) + c)
      ensures Unread() == (old(Unread()) + c)[ItemLength(old(Unread()) + c)..]
      ensures havePrefixError == Remembered(robustParsing, old(havePrefixError), old(Unread()) + c)
    {
      ghost var u := Unread() + c;
      buf := buf + c;
      assert Unread() == u;
      o := ParseLegacy();
      if o == Quiet && |buf| - bufIndex == 0 && bufIndex != 0 {
        buf, bufIndex := [], 0;
      }
    }

    method ParseBuffer(s: seq<Byte>) returns (b: Batch)
      requires Valid()
      modifies this`buf, this`bufIndex, this`expectedLength, this`havePrefixError
      ensures Valid()
      ensures b == BatchOf(reg, robustParsing, old(havePrefixError), old(Unread()) + s, [])
      ensures Unread() == BatchRest(reg, robustParsing, old(havePrefixError), old(Unread()) + s)
    {
      ghost var u, error := Unread() + s, havePrefixError;
      var ret := [];
      var o := ParseChar(s);
      ghost var at, was := u, error;
      while o.Returned?
        invariant Valid()
        invariant BatchOf(reg, robustParsing, error, u, []) == BatchOf(reg, robustParsing, was, at, ret)
        invariant BatchRest(reg, robustParsing, error, u) == BatchRest(reg, robustParsing, was, at)
        invariant o == Answer(reg, robustParsing, was, at)
        invariant Unread() == at[ItemLength(at)..]
        invariant havePrefixError == Remembered(robustParsing, was, at)
        decreases |at|
      {
        ReturnedTakes(reg, robustParsing, was, at);
        ret := ret + [o.verdict];
        at, was := Unread(), havePrefixError;
        assert at + [] == at;
        o := ParseChar([]);
      }
      b := if o.Quiet? then Done(ret) else Failed(o.reason);
    }

    /** A reader that hands over one byte at a time and goes on after errors. */
    method ReadLoop(s: seq<Byte>) returns (got: seq<Verdict>)
      requires Valid() && ItemLength(Unread()) == 0
      modifies this`buf, this`bufIndex, this`expectedLength, this`havePrefixError
      ensures Valid() && ItemLength(Unread()) == 0
      ensures Goods(got) == Goods(Items(reg, old(Unread()) + s))
      ensures Unread() == Rest(old(Unread()) + s)
    {
      hide Items, Rest, Goods, Answer, Remembered, ItemLength;
      ghost var u := Unread();
      Idle(reg, u);
      got := [];
      var i := 0;
      assert u + s[..0] == u;
      assert Goods(got) == Goods(Items(reg, u)) && Rest(u) == u;
      while i < |s|
        invariant 0 <= i <= |s|
        invariant Valid() && ItemLength(Unread()) == 0
        invariant Goods(got) == Goods(Items(reg, u + s[..i]))
        invariant Unread() == Rest(u + s[..i])
      {
        ghost var at := Unread();
        ByteByByte(reg, robustParsing, havePrefixError, u + s[..i], s[i], got);
        assert u + s[..i] + [s[i]] == u + s[..i + 1];
        var o := ParseChar([s[i]]);
        if o.Returned? {
          got := got + [o.verdict];
        }
        i := i + 1;
      }
      assert u + s[..i] == u + s;
    }
  }

  lemma DecodesPastPrefix(reg: Registry, buf: seq<Byte>)
    requires |buf| > 0 && Sound(reg) && IsMarker(buf[0])
    ensures Decode(reg, buf).Bad? ==> Decode(reg, buf).reason != BadPrefix
  {
  }

  lemma SamePastPrefix(reg: Registry, robust: bool, was: bool, now: bool, u: seq<Byte>)
    requires Sound(reg) && (u != [] ==> IsMarker(u[0]))
    ensures Answer(reg, robust, was, u) == Answer(reg, robust, now, u)
  {
    var n := ItemLength(u);
    if n > 0 {
      DecodesPastPrefix(reg, u[..n]);
    }
  }

  lemma {:induction false} Idle(reg: Registry, u: seq<Byte>)
    requires Sound(reg) && ItemLength(u) == 0
    ensures Items(reg, u) == [] && Rest(u) == u && Goods([]) == []
  {
  }

  lemma ReturnedTakes(reg: Registry, robust: bool, prefixError: bool, u: seq<Byte>)
    requires Sound(reg) && Answer(reg, robust, prefixError, u).Returned?
    ensures ItemLength(u) > 0
  {
  }

  lemma {:induction false} GoodsConcat(a: seq<Verdict>, b: seq<Verdict>)
    ensures Goods(a + b) == Goods(a) + Goods(b)
    decreases |a|
  {
    if a == [] {
      assert a + b == b;
    } else {
      var head, rest := a[0], a[1..];
      assert (a + b)[0] == head && (a + b)[1..] == rest + b;
      GoodsConcat(rest, b);
      GoodsCons(head, rest);
      GoodsCons(head, rest + b);
      assert a == [head] + rest && a + b == [head] + (rest + b);
      hide Goods;
      Associate(if head.Good? then [head] else [], Goods(rest), Goods(b));
    }
  }

  lemma {:induction false} GoodsCons(head: Verdict, rest: seq<Verdict>)
    ensures Goods([head] + rest) == (if head.Good? then [head] else []) + Goods(rest)
  {
    assert ([head] + rest)[1..] == rest;
  }

  lemma Associate(a: seq<Verdict>, b: seq<Verdict>, c: seq<Verdict>)
    ensures (a + b) + c == a + (b + c)
  {
  }

  /** After any bytes `u`, what the next byte adds to the messages is what one call reports. */
  lemma ByteByByte(reg: Registry, robust: bool, prefixError: bool, u: seq<Byte>, c: Byte, got: seq<Verdict>)
    requires Sound(reg) && Goods(got) == Goods(Items(reg, u))
    ensures var at := Rest(u) + [c];
            var o := Answer(reg, robust, prefixError, at);
            && Goods(if o.Returned? then got + [o.verdict] else got) == Goods(Items(reg, u + [c]))
            && Rest(u + [c]) == at[ItemLength(at)..] && ItemLength(at[ItemLength(at)..]) == 0
  {
    hide Judge;
    var at := Rest(u) + [c];
    RestIsSettled(u);
    OneByteCompletesAll(Rest(u), c);
    PiecesCompose(reg, u, [c]);
    GoodsConcat(Items(reg, u), Items(reg, at));
    var o := Answer(reg, robust, prefixError, at);
    if o.Returned? {
      GoodsConcat(got, [o.verdict]);
    }
  }
}
