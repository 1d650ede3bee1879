/**
 * A whole round of ranging with many anchors: the request, the responders that hear it and whose answers
 * reach the initiator, in any order and any number of times, and the read-back.
 */
module NrngRound {
  import opened Prelude
  import opened Slots
  import opened Nrng

  /** A responder that hears the request, and when the frames are on air on its clock and on the initiator's. */
  datatype Reply = Reply(slot: nat, address: nat, rx: nat, tx: nat, requestTs: nat, responseTs: nat)

  /** A responder answers a request in cell 0: its slot is requested, and within the 14 bits of the mask on air. */
  ghost predicate Answers(mask: nat, slot: nat) {
    slot < 14 && Bit(mask, slot)
  }

  /** The frame the initiator keeps of a reply. */
  ghost function Kept(me: nat, seqNum: nat, mask: nat, r: Reply): NFrame {
    NFrame(FinalCode, seqNum, me, r.address, Rank(mask, r.slot), r.rx % POW32, r.tx % POW32, r.requestTs, r.responseTs)
  }

  /** The answers to a request after these replies: of every slot the last one. */
  ghost function Collect(me: nat, seqNum: nat, mask: nat, replies: seq<Reply>): map<nat, NFrame> {
    if replies == [] then map[]
    else
      var last, before := replies[|replies| - 1], Collect(me, seqNum, mask, replies[..|replies| - 1]);
      if Answers(mask, last.slot) then before[last.slot := Kept(me, seqNum, mask, last)] else before
  }

  /** Reply j is the last one of its slot. */
  ghost predicate IsLast(replies: seq<Reply>, j: nat) {
    j < |replies| && forall k :: j < k < |replies| ==> replies[k].slot != replies[j].slot
  }

  ghost predicate Replied(replies: seq<Reply>, s: nat) {
    exists k: nat :: k < |replies| && replies[k].slot == s
  }

  lemma RepliedSnoc(replies: seq<Reply>, s: nat)
    requires replies != []
    ensures var n := |replies| - 1;
      Replied(replies, s) <==> s == replies[n].slot || Replied(replies[..n], s)
  {
    var n := |replies| - 1;
    if k: nat :| k < n && replies[..n][k].slot == s {
      assert replies[k].slot == s;
    }
    if k: nat :| k < |replies| && replies[k].slot == s {
      assert k == n || replies[..n][k].slot == s;
    }
  }

  lemma LastSnoc(replies: seq<Reply>, j: nat)
    requires IsLast(replies, j) && j < |replies| - 1
    ensures IsLast(replies[..|replies| - 1], j) && replies[j].slot != replies[|replies| - 1].slot
  {
  }

  /** One more reply. */
  lemma {:induction false} CollectSnoc(me: nat, seqNum: nat, mask: nat, replies: seq<Reply>, k: nat)
    requires k < |replies|
    ensures var before := Collect(me, seqNum, mask, replies[..k]);
      Collect(me, seqNum, mask, replies[..k + 1]) ==
        if Answers(mask, replies[k].slot) then before[replies[k].slot := Kept(me, seqNum, mask, replies[k])] else before
  {
    assert replies[..k + 1][..k] == replies[..k];
  }

  lemma {:induction false} CollectedSlots(me: nat, seqNum: nat, mask: nat, replies: seq<Reply>, s: nat)
    ensures s in Collect(me, seqNum, mask, replies) <==> Answers(mask, s) && Replied(replies, s)
    decreases |replies|
  {
    hide Kept, Answers;
    if replies != [] {
      CollectedSlots(me, seqNum, mask, replies[..|replies| - 1], s);
      RepliedSnoc(replies, s);
      hide Replied;
    }
  }

  lemma {:induction false} CollectedReply(me: nat, seqNum: nat, mask: nat, replies: seq<Reply>, j: nat)
    requires IsLast(replies, j) && Answers(mask, replies[j].slot)
    ensures var m := Collect(me, seqNum, mask, replies);
      replies[j].slot in m && m[replies[j].slot] == Kept(me, seqNum, mask, replies[j])
    decreases |replies|
  {
    hide Kept, Answers;
    if j < |replies| - 1 {
      LastSnoc(replies, j);
      CollectedReply(me, seqNum, mask, replies[..|replies| - 1], j);
    }
  }

  /** The answers on record are the last replies of the slots that answer. */
  lemma {:induction false} CollectsLast(me: nat, seqNum: nat, mask: nat, replies: seq<Reply>)
    ensures var m := Collect(me, seqNum, mask, replies);
      && (forall s: nat :: s in m <==> Answers(mask, s) && Replied(replies, s))
      && (forall j: nat :: IsLast(replies, j) && Answers(mask, replies[j].slot) ==>
            replies[j].slot in m && m[replies[j].slot] == Kept(me, seqNum, mask, replies[j]))
  {
    hide Collect, Answers, Replied, Kept;
    forall s: nat
      ensures s in Collect(me, seqNum, mask, replies) <==> Answers(mask, s) && Replied(replies, s)
    {
      CollectedSlots(me, seqNum, mask, replies, s);
    }
    forall j: nat | IsLast(replies, j) && Answers(mask, replies[j].slot)
      ensures var m := Collect(me, seqNum, mask, replies);
        replies[j].slot in m && m[replies[j].slot] == Kept(me, seqNum, mask, replies[j])
    {
      CollectedReply(me, seqNum, mask, replies, j);
    }
  }

  /** One responder hears the request, and the initiator hears its answer, if there is one. */
  method Exchange(nrng: NrngInstance, request: NFrame, bitfield: nat, r: Reply, ghost answers: map<nat, NFrame>)
    requires nrng.Collected(answers) && bitfield == Bitfield(nrng.slotMask, 0) < POW32 && r.slot < 31
    requires request.seqNum == nrng.seqNum && request.src == nrng.me
    modifies nrng.frames
    ensures nrng.Collected(
      if Answers(nrng.slotMask, r.slot) then answers[r.slot := Kept(nrng.me, nrng.seqNum, nrng.slotMask, r)] else answers)
  {
    hide Rank, Bit, PopCount, Holds, Bitfield;
    var answer := Respond(request, bitfield, r.slot, r.address, r.rx, r.tx);
    ResponderRank(nrng.slotMask, r.slot);
    if answer.Some? {
      nrng.OnResponse(answer.value, r.requestTs, r.responseTs, r.slot, answers);
      assert Completed(answer.value, nrng.me, r.requestTs, r.responseTs) == Kept(nrng.me, nrng.seqNum, nrng.slotMask, r);
    }
  }

  /** Whatever replies there are, the frames of the round hold the last of each answering slot. */
  method Gather(nrng: NrngInstance, dst: nat, mask: nat, replies: seq<Reply>)
    requires nrng.Valid() && mask < POW16 && PopCount(mask) <= nrng.frames.Length
    requires NoneFresh(nrng.State())
    requires forall k :: 0 <= k < |replies| ==> replies[k].slot < 31
    modifies nrng, nrng.frames
    ensures nrng.seqNum == (old(nrng.seqNum) + 1) % POW8 && nrng.slotMask == mask
    ensures nrng.Collected(Collect(nrng.me, nrng.seqNum, mask, replies))
  {
    var bitfield := nrng.Request(dst, mask, 0);
    hide NoneFresh;
    var request := NFrame(RequestCode, nrng.seqNum, nrng.me, dst, 0, 0, 0, 0, 0);
    var k := 0;
    assert replies[..0] == [];
    BitfieldFits(mask);
    hide Rank, Bit, PopCount, Holds, Collect, Bitfield;
    while k < |replies|
      modifies nrng.frames
      invariant 0 <= k <= |replies|
      invariant nrng.Collected(Collect(nrng.me, nrng.seqNum, mask, replies[..k]))
    {
      var r := replies[k];
      Exchange(nrng, request, bitfield, r, Collect(nrng.me, nrng.seqNum, mask, replies[..k]));
      CollectSnoc(nrng.me, nrng.seqNum, mask, replies, k);
      k := k + 1;
    }
    assert replies[..k] == replies;
  }

  lemma BitfieldFits(mask: nat)
    ensures Bitfield(mask, 0) < POW32
  {
  }

  /**
   * The whole round: exactly the slots that are requested, within the mask on air, and of which some reply got
   * through are read back, and each with the address and the flight time of its own last reply.
   */
  method Round(nrng: NrngInstance, dst: nat, mask: nat, replies: seq<Reply>,
               tofs: array<nat>, addresses: array<nat>, updated: array<bool>, nranges: nat, tof: NFrame -> nat)
    returns (got: nat)
    requires nrng.Valid() && mask < POW16 && PopCount(mask) <= nrng.frames.Length
    requires NoneFresh(nrng.State())
    requires forall k :: 0 <= k < |replies| ==> replies[k].slot < 31
    requires nranges < 31 && nranges <= tofs.Length && nranges <= addresses.Length && nranges <= updated.Length
    requires tofs != addresses
    modifies nrng, nrng.frames, tofs, addresses, updated
    ensures forall i: nat :: Bit(got, i) <==>
      i < nranges && Answers(mask, i) && Replied(replies, i)
    ensures forall k: nat :: IsLast(replies, k) && Answers(mask, replies[k].slot) && replies[k].slot < nranges ==>
      var j := Rank(got, replies[k].slot);
      && j < nranges && updated[j] && addresses[j] == replies[k].address
      && tofs[j] == tof(Kept(nrng.me, (old(nrng.seqNum) + 1) % POW8, mask, replies[k]))
  {
    hide Rank, Bit, PopCount, Answers, Replied, Collect;
    Gather(nrng, dst, mask, replies);
    ghost var answers := Collect(nrng.me, nrng.seqNum, mask, replies);
    CollectsLast(nrng.me, nrng.seqNum, mask, replies);
    got := nrng.ReadBack(tofs, addresses, updated, nranges, tof, answers);
    assert nrng.seqNum == (old(nrng.seqNum) + 1) % POW8;
  }
}
