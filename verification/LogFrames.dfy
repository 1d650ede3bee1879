/** What the indexed log reader finds in a log of MAVLink frames, of either version. */
module LogFrames {
  import opened Prelude
  import opened Mavlink
  import opened MavParser
  import L = LogIndex

  /** The message id of a frame, as the stream parser reads it. */
  ghost function IdOf(item: seq<Byte>): nat
    requires Complete(item)
  {
    HeaderOf(item).id
  }

  /** Bytes that do not belong here, eight bytes of time, and a frame. */
  datatype Entry = Entry(gap: seq<Byte>, stamp: seq<Byte>, item: seq<Byte>)
  {
    /** Behind a gap, the time must not look like a frame; without one it may. */
    ghost predicate Valid() {
      |stamp| == 8 && Complete(item) && Garbage((gap + stamp)[8..])
    }

    function Bytes(): seq<Byte> { gap + stamp + item }

    function Size(): nat { |stamp| + |item| }
  }

  ghost predicate AllValid(log: seq<Entry>) {
    forall i :: 0 <= i < |log| ==> log[i].Valid()
  }

  function Written(log: seq<Entry>): seq<Byte> {
    if log == [] then [] else log[0].Bytes() + Written(log[1..])
  }

  /** The bytes w stand at offset ofs. */
  ghost predicate At(data: seq<Byte>, ofs: nat, w: seq<Byte>) {
    ofs + |w| <= |data| && data[ofs..ofs + |w|] == w
  }

  lemma AtParts(data: seq<Byte>, ofs: nat, v: seq<Byte>, w: seq<Byte>)
    requires At(data, ofs, v + w)
    ensures At(data, ofs, v) && At(data, ofs + |v|, w)
  {
    assert data[ofs..ofs + |v + w|][..|v|] == v && data[ofs..ofs + |v + w|][|v|..] == w;
  }

  lemma AtByte(data: seq<Byte>, ofs: nat, w: seq<Byte>, i: nat)
    requires At(data, ofs, w) && i < |w|
    ensures data[ofs + i] == w[i]
  {
    assert data[ofs..ofs + |w|][i] == w[i];
  }

  /** A frame behind its time stamp is read as the message the parser takes it for, with its full length. */
  lemma HeaderIsFrames(data: seq<Byte>, ofs: nat, item: seq<Byte>)
    requires Complete(item) && At(data, ofs + 8, item)
    ensures !L.Ends(data, ofs) && L.HeaderAt(data, ofs) == Some(L.Record(ofs, IdOf(item), 8 + |item|))
  {
    forall i | 0 <= i < |item| ensures data[ofs + 8 + i] == item[i] { AtByte(data, ofs + 8, item, i); }
    assert data[ofs + 8 + 0] == item[0] && data[ofs + 8 + 1] == item[1] && data[ofs + 8 + 2] == item[2];
    assert data[ofs + 8 + 5] == item[5] && data[ofs + 8 + 7] == item[7];
    if item[0] == MARKER_V2 {
      assert data[ofs + 8 + 8] == item[8] && data[ofs + 8 + 9] == item[9];
    }
  }

  /** Bytes that are no markers are passed over one by one. */
  lemma {:induction false} GapIsSkipped(data: seq<Byte>, known: map<nat, string>, ofs: nat, n: nat)
    requires ofs + n + 14 < |data| && Garbage(data[ofs + 8..ofs + 8 + n])
    ensures L.Scan(data, known, ofs) == L.Scan(data, known, ofs + n)
    decreases n
  {
    if n > 0 {
      assert data[ofs + 8] == data[ofs + 8..ofs + 8 + n][0];
      assert data[ofs + 9..ofs + 9 + (n - 1)] == data[ofs + 8..ofs + 8 + n][1..];
      GapIsSkipped(data, known, ofs + 1, n - 1);
    }
  }

  /** What there is to find: of each frame of a known class where its time stamp starts, its id and its size. */
  ghost function Records(log: seq<Entry>, known: map<nat, string>, ofs: nat): seq<L.Record>
    requires AllValid(log)
  {
    if log == [] then []
    else
      var id, at := IdOf(log[0].item), ofs + |log[0].gap|;
      (if id in known then [L.Record(at, id, log[0].Size())] else []) + Records(log[1..], known, at + log[0].Size())
  }

  lemma GapIs(gap: seq<Byte>, stamp: seq<Byte>)
    requires |stamp| == 8
    ensures gap + stamp == (gap + stamp)[..8] + (gap + stamp)[8..] && |(gap + stamp)[8..]| == |gap|
  {
  }

  /** One entry of the log. */
  lemma EntryIsFound(data: seq<Byte>, known: map<nat, string>, ofs: nat, e: Entry)
    requires e.Valid() && At(data, ofs, e.Bytes())
    ensures var id, at := IdOf(e.item), ofs + |e.gap|;
      L.Scan(data, known, ofs) == (if id in known then [L.Record(at, id, e.Size())] else []) + L.Scan(data, known, at + e.Size())
  {
    hide L.Scan, L.HeaderAt, L.Ends, HeaderOf, FrameLength;
    var at := ofs + |e.gap|;
    var head := e.gap + e.stamp;
    assert |head| == |e.gap| + 8;
    AtParts(data, ofs, head, e.item);
    GapIs(e.gap, e.stamp);
    AtParts(data, ofs, head[..8], head[8..]);
    GapIsSkipped(data, known, ofs, |e.gap|);
    HeaderIsFrames(data, at, e.item);
    hide At, Garbage;
    L.ScanStep(data, known, at);
  }

  /**
   * Indexing a log, from the point at which its first entry starts and whatever follows the last, finds exactly the
   * frames of known classes in it, each once, in order, at its offset, under its id and with its full size.
   */
  lemma {:induction false} LogIsFound(data: seq<Byte>, known: map<nat, string>, ofs: nat, log: seq<Entry>)
    requires AllValid(log) && At(data, ofs, Written(log))
    ensures L.Scan(data, known, ofs) == Records(log, known, ofs) + L.Scan(data, known, ofs + |Written(log)|)
    decreases |log|
  {
    hide L.Scan, At, Complete;
    if log != [] {
      var e, rest := log[0], log[1..];
      AtParts(data, ofs, e.Bytes(), Written(rest));
      EntryIsFound(data, known, ofs, e);
      LogIsFound(data, known, ofs + |e.Bytes()|, rest);
      assert |Written(log)| == |e.Bytes()| + |Written(rest)| && |e.Bytes()| == |e.gap| + e.Size();
      hide Written, IdOf;
    }
  }

  /** The place of an entry's time stamp in the log. */
  ghost function StartOf(log: seq<Entry>, i: nat): nat
    requires i < |log|
  {
    |Written(log[..i])| + |log[i].gap|
  }

  lemma {:induction false} RecordAt(log: seq<Entry>, known: map<nat, string>, ofs: nat, i: nat)
    requires AllValid(log) && i < |log|
    requires forall k :: 0 <= k < |log| ==> IdOf(log[k].item) in known
    ensures |Records(log, known, ofs)| == |log|
    ensures Records(log, known, ofs)[i] == L.Record(ofs + StartOf(log, i), IdOf(log[i].item), log[i].Size())
    decreases |log|
  {
    hide IdOf, Complete;
    var rest, next := log[1..], ofs + |log[0].gap| + log[0].Size();
    assert forall k :: 0 <= k < |rest| ==> rest[k] == log[k + 1];
    if i == 0 {
      assert log[..0] == [];
      if rest != [] { RecordAt(rest, known, next, 0); }
    } else {
      RecordAt(rest, known, next, i - 1);
      assert log[..i] == [log[0]] + rest[..i - 1];
      assert log[..i][0] == log[0] && log[..i][1..] == rest[..i - 1];
    }
  }

  lemma {:induction false} EntryAt(log: seq<Entry>, i: nat)
    requires i < |log|
    ensures At(Written(log), |Written(log[..i])|, log[i].Bytes())
    decreases i
  {
    var head, rest := log[0].Bytes(), log[1..];
    assert Written(log) == head + Written(rest);
    if i == 0 {
      assert log[..0] == [];
    } else {
      EntryAt(rest, i - 1);
      assert log[..i][0] == log[0] && log[..i][1..] == rest[..i - 1];
      Behind(head, Written(rest), |Written(rest[..i - 1])|, rest[i - 1].Bytes());
    }
  }

  lemma Behind(head: seq<Byte>, data: seq<Byte>, ofs: nat, w: seq<Byte>)
    requires At(data, ofs, w)
    ensures At(head + data, |head| + ofs, w)
  {
    assert (head + data)[|head|..] == data;
    assert (head + data)[|head| + ofs..|head| + ofs + |w|] == data[ofs..ofs + |w|];
  }

  /** The message of a valid frame has the id in its header. */
  lemma GoodId(reg: Registry, item: seq<Byte>)
    requires Sound(reg) && Complete(item) && Judge(reg, item).Good?
    ensures Judge(reg, item).message.id == IdOf(item)
  {
    hide Checksum, DecodeBody;
  }

  lemma {:induction false} WholeLog(log: seq<Entry>, known: map<nat, string>)
    requires AllValid(log)
    ensures L.Scan(Written(log), known, 0) == Records(log, known, 0)
  {
    var data := Written(log);
    assert At(data, 0, data);
    hide L.Scan, Written;
    LogIsFound(data, known, 0, log);
    L.ScanEnds(data, known, |data|);
  }

  /** The frame of the i-th entry stands behind its gap and its time stamp. */
  lemma {:induction false} FrameAt(log: seq<Entry>, i: nat)
    requires i < |log| && log[i].Valid()
    ensures At(Written(log), StartOf(log, i) + 8, log[i].item)
  {
    EntryAt(log, i);
    var head := log[i].gap + log[i].stamp;
    assert log[i].Bytes() == head + log[i].item && |head| == |log[i].gap| + 8;
    hide Written, At;
    AtParts(Written(log), |Written(log[..i])|, head, log[i].item);
  }

  /** The frame of the entry is one of message m. */
  ghost predicate Carries(reg: Registry, e: Entry, m: Message)
    requires Sound(reg)
  {
    e.Valid() && Judge(reg, e.item).Good? && Judge(reg, e.item).message == m
  }

  lemma CarriesId(reg: Registry, e: Entry, m: Message)
    requires Sound(reg) && Carries(reg, e, m)
    ensures e.Valid() && IdOf(e.item) == m.id
  {
    GoodId(reg, e.item);
  }

  /**
   * A log of valid frames of known classes is indexed message by message: the i-th record has the id and the place of the
   * i-th message, and what stands there behind the time stamp is its frame.
   */
  lemma {:induction false} MessagesAreIndexed(reg: Registry, known: map<nat, string>, log: seq<Entry>,
                                              ms: seq<Message>, i: nat)
    requires Sound(reg) && i < |log| == |ms|
    requires forall k :: 0 <= k < |log| ==> Carries(reg, log[k], ms[k]) && ms[k].id in known
    ensures var data := Written(log); var rs := L.Scan(data, known, 0);
      && |rs| == |log|
      && rs[i] == L.Record(StartOf(log, i), ms[i].id, 8 + |log[i].item|)
      && At(data, rs[i].offset + 8, log[i].item)
  {
    hide Carries, Complete, IdOf, Sound, L.Scan, Written, At, StartOf;
    forall k | 0 <= k < |log| ensures log[k].Valid() && IdOf(log[k].item) == ms[k].id {
      CarriesId(reg, log[k], ms[k]);
    }
    WholeLog(log, known);
    RecordAt(log, known, 0, i);
    FrameAt(log, i);
    assert log[i].Size() == 8 + |log[i].item|;
  }

  /** Every frame the sender packs is such a frame. */
  lemma FramesAreValid(reg: Registry, m: Message, seqNo: Byte, system: Byte, component: Byte)
    requires Sound(reg) && Fits(reg, m)
    ensures var f := FrameOf(reg, m, seqNo, system, component);
      f[0] == 0xfe && Complete(f) && Judge(reg, f) == Good(seqNo, system, component, m)
  {
    hide Decode, Checksum;
    MessageRoundTrip(reg, m, seqNo, system, component);
  }
}
