/**
 * Ranging with many anchors at once: the request and the read-back
 * (firmware/lib/rtls_nrng/src/rtls_nrng.c) and the two receive branches
 * (firmware/lib/rtls_nrng_ss/src/rtls_nrng_ss.c).
 */
module Nrng {
  import opened Prelude
  import opened Slots

  const BROADCAST: nat := 0xFFFF
  /** Width of the start_slot_id field that carries the mask on air. */
  const MASK_FIELD: nat := 0x4000

  datatype Code = RequestCode | ResponseCode | FinalCode | OtherCode

  datatype NFrame = NFrame(code: Code, seqNum: nat, src: nat, dst: nat, slotId: nat,
                           receptionTs: nat, transmissionTs: nat, requestTs: nat, responseTs: nat)

  /** The bitfield responders read from a request for the given mask and cell. */
  function Bitfield(mask: nat, cellId: nat): nat {
    And(mask, MASK_FIELD - 1) + cellId * MASK_FIELD
  }

  /** What the initiator keeps of a response. */
  function Completed(f: NFrame, me: nat, requestTs: nat, responseTs: nat): NFrame {
    f.(code := FinalCode, dst := f.src, src := me, requestTs := requestTs, responseTs := responseTs)
  }

  /** The responder's branch of rx_complete_cb: answer if the bitfield names my slot, with the rank of the slot. */
  method Respond(request: NFrame, bitfield: nat, slot: nat, me: nat, rx: nat, tx: nat) returns (answer: Option<NFrame>)
    requires bitfield < POW32 && slot < 31
    ensures answer.Some? <==> Bit(bitfield, slot)
    ensures answer.Some? ==>
      && answer.value.code == ResponseCode && answer.value.slotId == Rank(bitfield, slot)
      && answer.value.seqNum == request.seqNum && answer.value.dst == request.src && answer.value.src == me
      && answer.value.receptionTs == rx % POW32 && answer.value.transmissionTs == tx % POW32
  {
    if !Bit(bitfield, slot) { return None; }
    var slotIdx := BitIndex(bitfield, Pow2(slot), slot, SlotPosition);
    answer := Some(request.(receptionTs := rx % POW32, transmissionTs := tx % POW32, dst := request.src, src := me,
                            code := ResponseCode, slotId := slotIdx));
  }

  lemma {:induction false} BitsBelow(k: nat, j: nat)
    ensures Bit(Pow2(k) - 1, j) <==> j < k
  {
    if k == 0 {
      ZeroHasNoBit(j);
    } else {
      assert (Pow2(k) - 1) / 2 == Pow2(k - 1) - 1;
      if j > 0 { BitsBelow(k - 1, j - 1); }
    }
  }

  /**
   * In cell 0 a responder answers exactly if its slot is below 14 and in the mask, and then with the rank
   * of its slot in the whole mask: the mask field drops slots 14 and 15, so these never answer.
   */
  lemma {:induction false} ResponderRank(mask: nat, slot: nat)
    ensures Bit(Bitfield(mask, 0), slot) <==> slot < 14 && Bit(mask, slot)
    ensures Bit(Bitfield(mask, 0), slot) ==> Rank(Bitfield(mask, 0), slot) == Rank(mask, slot)
  {
    WordSize();
    forall j: nat ensures Bit(Bitfield(mask, 0), j) <==> j < 14 && Bit(mask, j) {
      AndBits(mask, MASK_FIELD - 1, j);
      BitsBelow(14, j);
    }
    if slot < 14 { RankAgrees(Bitfield(mask, 0), mask, slot); }
  }

  /** Two words side by side: the bits below position k are those of the first, the others those of the second. */
  lemma {:induction false} JoinedBits(low: nat, high: nat, k: nat, j: nat)
    requires low < Pow2(k)
    ensures Bit(low + high * Pow2(k), j) <==> if j < k then Bit(low, j) else Bit(high, j - k)
  {
    if k > 0 {
      var p := Pow2(k - 1);
      assert high * Pow2(k) == 2 * (high * p);
      Halves(low, high * p);
      if j > 0 { JoinedBits(low / 2, high, k - 1, j - 1); }
    }
  }

  lemma Halves(low: nat, more: nat)
    ensures (low + 2 * more) / 2 == low / 2 + more && (low + 2 * more) % 2 == low % 2
  {
  }

  lemma {:induction false} AndWithin(n: nat, k: nat)
    ensures And(n, Pow2(k) - 1) < Pow2(k)
  {
  }

  /** In other cells the number of the cell fills the higher bits: slots below 14 answer as in cell 0, and with the same rank. */
  lemma {:induction false} ResponderInCell(mask: nat, cellId: nat, slot: nat)
    ensures Bit(Bitfield(mask, cellId), slot) <==> if slot < 14 then Bit(mask, slot) else Bit(cellId, slot - 14)
    ensures slot < 14 ==> Rank(Bitfield(mask, cellId), slot) == Rank(mask, slot)
  {
    WordSize();
    AndWithin(mask, 14);
    forall j: nat ensures Bit(Bitfield(mask, cellId), j) <==> if j < 14 then Bit(mask, j) else Bit(cellId, j - 14) {
      JoinedBits(And(mask, MASK_FIELD - 1), cellId, 14, j);
      AndBits(mask, MASK_FIELD - 1, j);
      BitsBelow(14, j);
    }
    if slot < 14 { RankAgrees(Bitfield(mask, cellId), mask, slot); }
  }

  lemma {:induction false} SetBit(mask: nat, i: nat, j: nat)
    requires mask < Pow2(i)
    ensures Bit(mask + Pow2(i), j) <==> j == i || Bit(mask, j)
    ensures mask + Pow2(i) < Pow2(i + 1)
  {
    if i == 0 {
      PowerBits(0, j);
      ZeroHasNoBit(j);
    } else if j > 0 {
      assert (mask + Pow2(i)) / 2 == mask / 2 + Pow2(i - 1);
      SetBit(mask / 2, i - 1, j - 1);
    }
  }

  /** mask is the set of the slots below i that answered. */
  ghost predicate MaskOf(mask: nat, i: nat, answers: map<nat, NFrame>) {
    mask < Pow2(i) && forall j: nat :: Bit(mask, j) <==> j < i && j in answers
  }

  lemma EmptyMask(answers: map<nat, NFrame>)
    ensures MaskOf(0, 0, answers)
  {
    forall j: nat ensures !Bit(0, j) { ZeroHasNoBit(j); }
  }

  /** One bit of the mask after slot i. */
  lemma NextBit(mask: nat, i: nat, answered: bool, j: nat)
    requires mask < Pow2(i)
    ensures Bit(if answered then mask + Pow2(i) else mask, j) <==> (answered && j == i) || Bit(mask, j)
    ensures (if answered then mask + Pow2(i) else mask) < Pow2(i + 1)
  {
    SetBit(mask, i, j);
    hide Bit;
  }

  lemma {:induction false} NextMask(mask: nat, i: nat, answers: map<nat, NFrame>)
    requires MaskOf(mask, i, answers)
    ensures MaskOf(if i in answers then mask + Pow2(i) else mask, i + 1, answers)
  {
    hide Bit, Pow2;
    var next := if i in answers then mask + Pow2(i) else mask;
    forall j: nat
      ensures Bit(next, j) <==> j < i + 1 && j in answers
    {
      NextBit(mask, i, i in answers, j);
      assert Bit(mask, j) <==> j < i && j in answers;
    }
    NextBit(mask, i, i in answers, 0);
  }

  // ---------------------------------------------------------- the frames of a round

  /** Where the answer of a requested slot is kept. */
  ghost function Place(n: nat, idx: nat, mask: nat, slot: nat): (p: nat)
    requires 0 < n
    ensures p < n
  {
    (idx + Rank(mask, slot)) % n
  }

  ghost predicate Fresh(f: NFrame, seqNum: nat) {
    f.code == FinalCode && f.seqNum == seqNum
  }

  /** The frames hold these answers to the request, by slot, and nothing else that looks like one. */
  ghost predicate Holds(frames: seq<NFrame>, idx: nat, seqNum: nat, mask: nat, answers: map<nat, NFrame>) {
    && 0 < |frames| && PopCount(mask) <= |frames|
    && (forall s :: s in answers ==> Bit(mask, s))
    && (forall s: nat :: Bit(mask, s) ==> HoldsOne(frames, idx, seqNum, mask, answers, s))
  }

  ghost predicate HoldsOne(frames: seq<NFrame>, idx: nat, seqNum: nat, mask: nat, answers: map<nat, NFrame>, s: nat)
    requires 0 < |frames|
  {
    var f := frames[Place(|frames|, idx, mask, s)];
    if s in answers then f == answers[s] && Fresh(f, seqNum) else !Fresh(f, seqNum)
  }

  /** The place an answer numbered slotId goes to is that of this requested slot. */
  ghost predicate Hits(n: nat, idx: nat, mask: nat, slotId: nat, slot: nat)
    requires 0 < n
  {
    Bit(mask, slot) && (idx + slotId) % n == Place(n, idx, mask, slot)
  }

  /** Requested slots have different places. */
  lemma {:induction false} PlacesDiffer(n: nat, idx: nat, mask: nat, s: nat, t: nat)
    requires 0 < n && PopCount(mask) <= n && Bit(mask, s) && Bit(mask, t) && s != t
    ensures Place(n, idx, mask, s) != Place(n, idx, mask, t)
  {
    hide Bit, Rank, PopCount;
    var lo, hi := if s < t then s else t, if s < t then t else s;
    RankStrict(mask, lo, hi);
    RankStrict(mask, hi, hi + 1);
    RankOfAll(mask, hi + 1);
    ApartMod(idx + Rank(mask, lo), Rank(mask, hi) - Rank(mask, lo), n);
  }

  /** An answer filed in the place of a requested slot becomes that slot's answer, whatever was there. */
  lemma {:induction false} FilesOne(frames: seq<NFrame>, idx: nat, seqNum: nat, mask: nat, answers: map<nat, NFrame>,
                                    slot: nat, f: NFrame)
    requires Holds(frames, idx, seqNum, mask, answers) && Bit(mask, slot) && Fresh(f, seqNum)
    ensures Holds(frames[Place(|frames|, idx, mask, slot) := f], idx, seqNum, mask, answers[slot := f])
  {
    var n := |frames|;
    var frames' := frames[Place(n, idx, mask, slot) := f];
    hide Bit, PopCount, Place, Fresh;
    forall s: nat | Bit(mask, s)
      ensures HoldsOne(frames', idx, seqNum, mask, answers[slot := f], s)
    {
      assert HoldsOne(frames, idx, seqNum, mask, answers, s);
      if s != slot {
        PlacesDiffer(n, idx, mask, s, slot);
      }
    }
  }

  /** An answer filed elsewhere leaves the round as it is. */
  lemma {:induction false} FilesNone(frames: seq<NFrame>, idx: nat, seqNum: nat, mask: nat, answers: map<nat, NFrame>,
                                     at: nat, f: NFrame)
    requires Holds(frames, idx, seqNum, mask, answers) && at < |frames|
    requires forall s: nat :: Bit(mask, s) ==> Place(|frames|, idx, mask, s) != at
    ensures Holds(frames[at := f], idx, seqNum, mask, answers)
  {
    hide Bit, PopCount, Place, Fresh;
    forall s: nat | Bit(mask, s)
      ensures HoldsOne(frames[at := f], idx, seqNum, mask, answers, s)
    {
      assert HoldsOne(frames, idx, seqNum, mask, answers, s);
      assert Place(|frames|, idx, mask, s) != at;
    }
  }

  /** What filing an answer numbered slotId does to the round. */
  lemma Files(frames: seq<NFrame>, idx: nat, seqNum: nat, mask: nat, answers: map<nat, NFrame>,
              slotId: nat, slot: nat, f: NFrame)
    requires Holds(frames, idx, seqNum, mask, answers) && 0 < |frames| && Fresh(f, seqNum)
    ensures var frames' := frames[(idx + slotId) % |frames| := f];
      && (Hits(|frames|, idx, mask, slotId, slot) ==> Holds(frames', idx, seqNum, mask, answers[slot := f]))
      && ((forall s: nat :: !Hits(|frames|, idx, mask, slotId, s)) ==> Holds(frames', idx, seqNum, mask, answers))
  {
    hide Holds, Place, Fresh, Bit;
    if Hits(|frames|, idx, mask, slotId, slot) {
      FilesOne(frames, idx, seqNum, mask, answers, slot, f);
    }
    if forall s: nat :: !Hits(|frames|, idx, mask, slotId, s) {
      forall s: nat | Bit(mask, s)
        ensures Place(|frames|, idx, mask, s) != (idx + slotId) % |frames|
      {
        assert !Hits(|frames|, idx, mask, slotId, s);
      }
      FilesNone(frames, idx, seqNum, mask, answers, (idx + slotId) % |frames|, f);
    }
  }

  // ------------------------------------------------------------ the state as a value

  /** The frames, and the index, sequence number and mask of the current request. */
  datatype Book = Book(frames: seq<NFrame>, idx: nat, seqNum: nat, mask: nat)

  /** The state after a request for a mask: its own frame takes the place of rank 0. */
  ghost function Asked(b: Book, me: nat, dst: nat, mask: nat): (b': Book)
    requires 0 < |b.frames|
    ensures |b'.frames| == |b.frames|
  {
    var idx, seqNum := (b.idx + PopCount(mask)) % POW16, (b.seqNum + 1) % POW8;
    var at := idx % |b.frames|;
    Book(b.frames[at := b.frames[at].(seqNum := seqNum, code := RequestCode, src := me, dst := dst)], idx, seqNum, mask)
  }

  /** No frame looks like an answer to the next request. */
  ghost predicate NoneFresh(b: Book) {
    forall p :: 0 <= p < |b.frames| ==> !Fresh(b.frames[p], (b.seqNum + 1) % POW8)
  }

  /** A request begins its round with no answers. */
  lemma {:induction false} AskedHoldsNone(b: Book, me: nat, dst: nat, mask: nat)
    requires 0 < |b.frames| && PopCount(mask) <= |b.frames| && NoneFresh(b)
    ensures var b' := Asked(b, me, dst, mask); Holds(b'.frames, b'.idx, b'.seqNum, mask, map[])
  {
    var b' := Asked(b, me, dst, mask);
    assert NoneFresh(b) ==> forall p :: 0 <= p < |b'.frames| ==> !Fresh(b'.frames[p], b'.seqNum);
    hide PopCount, Place, Fresh, Bit, Asked;
    forall s: nat | Bit(mask, s)
      ensures HoldsOne(b'.frames, b'.idx, b'.seqNum, mask, map[], s)
    {
      assert !Fresh(b'.frames[Place(|b'.frames|, b'.idx, mask, s)], b'.seqNum);
    }
  }

  /**
   * Unless the 16-bit index wraps, a request for no fewer nodes than the one before it, and for at most half of the
   * frames, keeps its answers apart from the answers before.
   */
  lemma {:induction false} RoundsKeepApart(b: Book, me: nat, dst: nat, mask: nat, s: nat, t: nat)
    requires Bit(b.mask, s) && Bit(mask, t) && 0 < |b.frames|
    requires PopCount(b.mask) <= PopCount(mask) && 2 * PopCount(mask) <= |b.frames| && b.idx + PopCount(mask) < POW16
    ensures Place(|b.frames|, Asked(b, me, dst, mask).idx, mask, t) != Place(|b.frames|, b.idx, b.mask, s)
  {
    RankBelowCount(b.mask, s);
    RankBelowCount(mask, t);
    AskedIndex(b, me, dst, mask);
    hide Bit, Rank, PopCount, Asked, Place;
    PlacesApart(|b.frames|, b.idx, b.mask, s, Asked(b, me, dst, mask).idx, mask, t);
  }

  lemma {:induction false} AskedIndex(b: Book, me: nat, dst: nat, mask: nat)
    requires 0 < |b.frames| && b.idx + PopCount(mask) < 0x1_0000
    ensures Asked(b, me, dst, mask).idx == b.idx + PopCount(mask)
  {
    hide PopCount;
    IsReduced(b.idx + PopCount(mask));
    AskedIndexIs(b, me, dst, mask, b.idx + PopCount(mask));
    hide Asked;
  }

  lemma {:induction false} AskedIndexIs(b: Book, me: nat, dst: nat, mask: nat, idx: nat)
    requires 0 < |b.frames| && idx == (b.idx + PopCount(mask)) % POW16
    ensures Asked(b, me, dst, mask).idx == idx
  {
  }

  lemma IsReduced(x: nat)
    requires x < 0x1_0000
    ensures x % 0x1_0000 == x
  {
  }

  lemma {:induction false} PlacesApart(n: nat, idx: nat, mask: nat, s: nat, idx': nat, mask': nat, t: nat)
    requires 0 < idx' + Rank(mask', t) - (idx + Rank(mask, s)) < n
    ensures Place(n, idx', mask', t) != Place(n, idx, mask, s)
  {
    hide Rank;
    ApartMod(idx + Rank(mask, s), idx' + Rank(mask', t) - (idx + Rank(mask, s)), n);
  }

  lemma {:induction false} RankBelowCount(mask: nat, s: nat)
    requires Bit(mask, s)
    ensures Rank(mask, s) < PopCount(mask)
  {
    RankStrict(mask, s, s + 1);
    RankOfAll(mask, s + 1);
  }

  /** A response counts: it carries the current sequence number, and is meant for me or for all. */
  ghost predicate Counts(b: Book, me: nat, f: NFrame) {
    f.seqNum == b.seqNum && (f.dst == me || f.dst == BROADCAST)
  }

  /** The state after a response. */
  ghost function Answered(b: Book, me: nat, f: NFrame, requestTs: nat, responseTs: nat): (b': Book)
    requires 0 < |b.frames|
    ensures |b'.frames| == |b.frames|
  {
    if Counts(b, me, f) then
      b.(frames := b.frames[(b.idx + f.slotId) % |b.frames| := Completed(f, me, requestTs, responseTs)])
    else b
  }

  class NrngInstance {
    const me: nat
    const frames: array<NFrame>
    var idx: nat
    var seqNum: nat
    var slotMask: nat
    var nnodes: nat

    ghost predicate Valid()
      reads this
    {
      0 < frames.Length && slotMask < POW16 && idx < POW16
    }

    ghost function State(): Book
      reads this, frames
    {
      Book(frames[..], idx, seqNum, slotMask)
    }

    /** The frame in which the answer of a requested slot is kept. */
    ghost function FrameOf(slot: nat): NFrame
      requires Valid()
      reads this, frames
    {
      frames[Place(frames.Length, idx, slotMask, slot)]
    }

    ghost predicate Collected(answers: map<nat, NFrame>)
      reads this, frames
    {
      Valid() && Holds(frames[..], idx, seqNum, slotMask, answers)
    }

    lemma {:induction false} Finds(answers: map<nat, NFrame>, s: nat)
      requires Collected(answers) && Bit(slotMask, s)
      ensures if s in answers then FrameOf(s) == answers[s] && Fresh(FrameOf(s), seqNum) else !Fresh(FrameOf(s), seqNum)
    {
      hide Bit, PopCount, Place, Fresh;
      assert HoldsOne(frames[..], idx, seqNum, slotMask, answers, s);
    }

    constructor (me: nat, nframes: nat)
      requires 0 < nframes
      ensures Valid() && fresh(frames) && frames.Length == nframes && this.me == me && idx == seqNum == slotMask == 0
      ensures forall i :: 0 <= i < nframes ==> frames[i].code == OtherCode
    {
      this.me := me;
      frames := new NFrame[nframes](_ => NFrame(OtherCode, 0, 0, 0, 0, 0, 0, 0, 0));
      idx, seqNum, slotMask, nnodes := 0, 0, 0, 0;
    }

    method Request(dst: nat, mask: nat, cellId: nat) returns (bitfield: nat)
      requires Valid() && mask < POW16
      modifies this, frames
      ensures Valid() && nnodes == PopCount(mask) && State() == Asked(old(State()), me, dst, mask)
      ensures bitfield == Bitfield(mask, cellId)
      ensures PopCount(mask) <= frames.Length && old(NoneFresh(State())) ==> Collected(map[])
    {
      hide PopCount, Holds, NoneFresh;
      nnodes := NumberOfBits(mask);
      idx := (idx + nnodes) % POW16;
      seqNum := (seqNum + 1) % POW8;
      var at := idx % frames.Length;
      frames[at] := frames[at].(seqNum := seqNum, code := RequestCode, src := me, dst := dst);
      slotMask := mask;
      bitfield := Bitfield(mask, cellId);
      assert State() == Asked(old(State()), me, dst, mask);
      if PopCount(mask) <= frames.Length && old(NoneFresh(State())) {
        AskedHoldsNone(old(State()), me, dst, mask);
      }
    }

    /**
     * The initiator's branch of rx_complete_cb: an answer to the current request becomes the answer of the
     * requested slot whose place it hits, if any; one that carries the rank of a slot hits that slot's.
     */
    method OnResponse(f: NFrame, requestTs: nat, responseTs: nat, ghost slot: nat, ghost answers: map<nat, NFrame>)
      requires Valid()
      modifies frames
      ensures State() == Answered(old(State()), me, f, requestTs, responseTs)
      ensures var taken := f.seqNum == seqNum && (f.dst == me || f.dst == 0xFFFF);
        && (old(Collected(answers)) && taken && Hits(frames.Length, idx, slotMask, f.slotId, slot) ==>
              Collected(answers[slot := Completed(f, me, requestTs, responseTs)]))
        && (old(Collected(answers)) && (!taken || forall s: nat :: !Hits(frames.Length, idx, slotMask, f.slotId, s)) ==>
              Collected(answers))
    {
      hide Holds, Hits;
      if f.dst != me && f.dst != BROADCAST { return; }
      if seqNum != f.seqNum { return; }
      var at := (idx + f.slotId) % frames.Length;
      var kept := Completed(f, me, requestTs, responseTs);
      frames[at] := kept;
      assert frames[..] == old(frames[..])[at := kept];
      if old(Collected(answers)) {
        Files(old(frames[..]), idx, seqNum, slotMask, answers, f.slotId, slot, kept);
      }
    }

    /** Where the read-back finds the answer of a slot. */
    method Answer(i: nat, ghost answers: map<nat, NFrame>) returns (f: NFrame)
      requires Collected(answers) && i in answers && i < 31
      ensures f == answers[i]
    {
      var rank := BitIndex(slotMask, Pow2(i), i, SlotPosition);
      f := frames[(idx + rank) % frames.Length];
      Finds(answers, i);
    }

    /**
     * nrng_get_tofs_addresses with the base at which the request was made: the result is the mask of the slots
     * that answered, and entry j of the outputs belongs to the j-th of them. tof stands for
     * nrng_twr_to_tof_frames.
     */
    method ReadBack(tofs: array<nat>, addresses: array<nat>, updated: array<bool>, nranges: nat, tof: NFrame -> nat,
                    ghost answers: map<nat, NFrame>) returns (mask: nat)
      requires Collected(answers) && nranges < 31
      requires nranges <= tofs.Length && nranges <= addresses.Length && nranges <= updated.Length && tofs != addresses
      modifies tofs, addresses, updated
      ensures forall i: nat :: Bit(mask, i) <==> i < nranges && i in answers
      ensures forall i: nat :: i < nranges && i in answers ==>
        var j := Rank(mask, i);
        j < nranges && addresses[j] == answers[i].dst && tofs[j] == tof(answers[i]) && updated[j]
      ensures forall j :: PopCount(mask) <= j < addresses.Length ==> addresses[j] == old(addresses[j])
      ensures forall j :: PopCount(mask) <= j < updated.Length ==> updated[j] == old(updated[j])
    {
      hide Rank, PopCount, Bit;
      mask := AnsweredMask(nranges, answers);
      ghost var total := Rank(mask, nranges);
      RankOfAll(mask, nranges);
      RankOfNone(mask);
      var j, i := 0, 0;
      while i < nranges
        invariant 0 <= i <= nranges && j == Rank(mask, i) <= i
        invariant forall k: nat :: k < i && k in answers ==>
          Rank(mask, k) < j && addresses[Rank(mask, k)] == answers[k].dst
          && tofs[Rank(mask, k)] == tof(answers[k]) && updated[Rank(mask, k)]
        invariant forall k :: j <= k < addresses.Length ==> addresses[k] == old(addresses[k])
        invariant forall k :: j <= k < updated.Length ==> updated[k] == old(updated[k])
      {
        RankNext(mask, i);
        if Bit(mask, i) {
          var f := Answer(i, answers);
          tofs[j] := tof(f);
          addresses[j] := f.dst;
          updated[j] := true;
          j := j + 1;
        }
        i := i + 1;
      }
    }

    /** The first loop of the read-back. */
    method AnsweredMask(nranges: nat, ghost answers: map<nat, NFrame>) returns (mask: nat)
      requires Collected(answers) && nranges < 31
      ensures MaskOf(mask, nranges, answers)
    {
      mask := 0;
      var i := 0;
      EmptyMask(answers);
      while i < nranges
        invariant 0 <= i <= nranges && MaskOf(mask, i, answers)
      {
        NextMask(mask, i, answers);
        if Bit(slotMask, i) {
          var rank := BitIndex(slotMask, Pow2(i), i, SlotPosition);
          var f := frames[(idx + rank) % frames.Length];
          Finds(answers, i);
          if f.code == FinalCode && f.seqNum == seqNum {
            mask := mask + Pow2(i);
          }
        }
        i := i + 1;
      }
    }
  }
}
