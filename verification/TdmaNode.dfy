/** What one node makes of the beacons and requests it hears, with any number of anchors around it. */
module TdmaNode {
  import opened Prelude
  import opened Tdma

  // -------------------------------------------------------------- hearing a beacon

  /** The sender of the beacon is the node whose request is pending. */
  ghost predicate Awaited(r: Rti, src: nat) { r.slotIdx != 0 && r.slotReqt != 0 && r.slotReqtAddr == src }

  /** The node takes the sender for the owner of the slot: known, waited for, or heard loud enough. */
  ghost predicate Trusts(r: Rti, slot: nat, rx: Rx)
    requires r.Valid() && 1 <= slot <= BCN_SLOT_MAX
  {
    || r.nodes[slot].addr == rx.frame.src
    || (r.slotIdx == 0 && rx.rssi >= -95.0)
    || (r.slotIdx != 0 && (r.role == Tag || rx.rssi > -95.0 || Awaited(r, rx.frame.src)))
  }

  /** Whether the sender of map sm counts as having accepted this node: a new one does unless a tag finds its slot taken. */
  ghost predicate Accepts(r: Rti, slot: nat, rx: Rx, sm: SlotMap)
    requires r.Valid() && 1 <= slot <= BCN_SLOT_MAX
  {
    if r.nodes[slot].addr == rx.frame.src || r.slotIdx == 0 || !Trusts(r, slot, rx) then r.nodes[slot].accepted
    else Awaited(r, rx.frame.src) || r.role == Anchor || r.slotIdx !in sm
  }

  /** The row of the slot of a beacon with map sm from then on. */
  ghost function Noted(r: Rti, slot: nat, rx: Rx, sm: SlotMap): Node
    requires r.Valid() && 1 <= slot <= BCN_SLOT_MAX
  {
    Node(if Trusts(r, slot, rx) then rx.frame.src else r.nodes[slot].addr, sm, 0, true, Accepts(r, slot, rx, sm))
  }

  /** Row by row, b is a but for the row of the slot and the own slot map. */
  ghost predicate OtherRowsKept(a: Rti, b: Rti, slot: nat)
    requires a.Valid() && b.Valid()
  {
    forall j :: 0 <= j < NSLOTS && j != slot ==>
      b.nodes[j] == if j == a.slotIdx then a.nodes[j].(slotMap := b.nodes[j].slotMap) else a.nodes[j]
  }

  lemma {:induction false} AbsorbsOne(r: Rti, slot: nat, f: Frame, m: Msg)
    requires r.Valid() && 1 <= slot <= BCN_SLOT_MAX && f.msgs == [m] && !m.Acpt?
    ensures AbsorbAll(r, slot, f, 0) == Absorb(r, slot, f.src, m)
  {
    assert AbsorbAll(r, slot, f, 0) == AbsorbAll(Absorb(r, slot, f.src, m), slot, f, 1);
  }

  /**
   * After a beacon with a slot map the row of its slot is alive and has the map, names the sender if it is trusted, and
   * the slot counts as taken; only a node without a slot ignores a sender it does not trust. No other row changes.
   */
  lemma BeaconIsNoted(r: Rti, slot: nat, rx: Rx, sm: SlotMap)
    requires r.Valid() && 1 <= slot <= BCN_SLOT_MAX && slot != r.slotIdx && rx.frame.msgs == [Map(sm)]
    ensures var r' := BeaconOther(r, slot, Some(rx));
      if r.slotIdx == 0 && !Trusts(r, slot, rx) then r' == r
      else
        && r' == r.(nodes := r'.nodes, slotReqt := r'.slotReqt)
        && r'.nodes[slot] == Noted(r, slot, rx, sm)
        && r'.OwnMap() == r.OwnMap() + {slot} && OtherRowsKept(r, r', slot)
        && r'.slotReqt == if Awaited(r, rx.frame.src) && r.nodes[slot].addr != rx.frame.src then 0 else r.slotReqt
  {
    var o := Identify(r, slot, rx);
    if o.Some? {
      var r1 := MarkAlive(o.value, slot);
      AbsorbsOne(r1, slot, rx.frame, Map(sm));
      assert r1 == r.(nodes := r1.nodes, slotReqt := o.value.slotReqt) && OtherRowsKept(r, r1, slot);
      assert r1.nodes[slot].timeout == 0 && r1.nodes[slot].available && r1.OwnMap() == r.OwnMap() + {slot};
      hide MarkAlive, Identify;
    }
  }

  // ------------------------------------------------------------------- joining

  /** All beacon nodes in the table but the one in this slot have accepted this node. */
  ghost predicate OthersAccept(r: Rti, slot: nat)
    requires r.Valid()
  {
    forall i :: Known(r, i) && i != slot ==> r.nodes[i].accepted
  }

  /**
   * A waiting node joins with the last acceptance and takes along, as its own map, every slot it has heard, and its own;
   * before that, or on an acceptance of another slot, it goes on waiting.
   */
  lemma JoinsWithLastAcceptance(r: Rti, slot: nat, src: nat, s: nat)
    requires r.Valid() && 1 <= slot <= BCN_SLOT_MAX && r.slotIdx == 0 && !r.master
    requires r.slotReqt > SVC_SLOT || (r.role == Anchor && 1 <= r.slotReqt <= BCN_SLOT_MAX)
    requires Known(r, slot)
    ensures var r' := Absorb(r, slot, src, Acpt(s));
      && (s == r.slotReqt && OthersAccept(r, slot) ==>
            && r'.slotIdx == r.slotReqt && r'.slotReqt == 0
            && r'.OwnMap() == r.OwnMap() + {r.slotReqt} && r'.nodes[r.slotReqt].addr == r.me && r'.nodes[r.slotReqt].accepted)
      && (s != r.slotReqt || !OthersAccept(r, slot) ==> r'.slotIdx == 0 && r'.slotReqt == r.slotReqt)
      && (s != r.slotReqt ==> r' == r)
      && (s == r.slotReqt ==> r'.nodes[slot].accepted)
  {
    if s == r.slotReqt {
      var r1 := r.(nodes := r.nodes[slot := r.nodes[slot].(accepted := true)]);
      assert Known(r1, slot);
      assert forall i :: Known(r1, i) <==> Known(r, i);
      assert AllAccepted(r1) <==> OthersAccept(r, slot);
      hide AllAccepted, OthersAccept;
    }
  }

  // ---------------------------------------------------------- answering requests

  /**
   * A beacon answers a pending request: it concedes the slot exactly if its bit is off, to the node that asked, together
   * with the map as it was. Conceding a ranging slot enters its owner, and settles the request; conceding a beacon slot
   * enters nothing and leaves the request pending, until the node is heard; refusing drops the request.
   */
  lemma BeaconAnswers(r: Rti)
    requires r.Valid() && r.slotReqt != 0 && r.slotIdx <= BCN_SLOT_MAX && r.slotReqt != SVC_SLOT
    ensures var (r', tx) := BeaconMine(r, true);
      var free, ranging := r.slotReqt !in r.OwnMap(), r.slotReqt > SVC_SLOT;
      && tx == Some(Frame(r.slotReqtAddr, r.me, [Acpt(if free then r.slotReqt else 0), Map(r.OwnMap())]))
      && r'.slotReqt == (if free && !ranging then r.slotReqt else 0)
      && r'.OwnMap() == (if free && ranging then r.OwnMap() + {r.slotReqt} else r.OwnMap())
      && r'.nodes[r.slotReqt].addr == (if free && ranging then r.slotReqtAddr else r.nodes[r.slotReqt].addr)
  {
  }

  /** With or without a buffer for the frame the own row is alive from then on; without one nothing is sent or settled. */
  lemma BeaconKeepsAlive(r: Rti, alloc: bool)
    requires r.Valid()
    ensures var (r', tx) := BeaconMine(r, alloc);
      && r'.slotIdx == r.slotIdx && r'.nodes[r.slotIdx].available && r'.nodes[r.slotIdx].timeout == 0
      && (tx.None? <==> !alloc)
      && (!alloc ==> r'.slotReqt == r.slotReqt && r'.seqno == r.seqno && r'.OwnMap() == r.OwnMap())
  {
  }

  /** Without a request, of two beacons in a row one carries the position and one the map, both to all. */
  lemma BeaconsAlternate(r: Rti)
    requires r.Valid() && r.slotReqt == 0
    ensures var (r1, tx1) := BeaconMine(r, true); var (r2, tx2) := BeaconMine(r1, true);
      && tx1.Some? && tx2.Some? && tx1.value.dst == tx2.value.dst == 0xFFFF && tx1.value.src == tx2.value.src == r.me
      && (tx1.value.msgs, tx2.value.msgs) in {([Loca], [Map(r.OwnMap())]), ([Map(r.OwnMap())], [Loca])}
      && r2.slotReqt == 0 && r2.OwnMap() == r.OwnMap()
  {
    Parity(r.seqno);
  }

  lemma Parity(n: nat)
    ensures (n + 1) % 0x100 % 2 != n % 2
  {
  }

  /** A slot in which a node was heard is refused from then on, to whoever asks, until the row is dropped. */
  lemma HeardSlotIsRefused(r: Rti, slot: nat, rx: Rx, sm: SlotMap, from: nat)
    requires r.Valid() && 1 <= slot <= BCN_SLOT_MAX && slot != r.slotIdx && 0 < r.slotIdx <= BCN_SLOT_MAX
    requires rx.frame.msgs == [Map(sm)]
    ensures var r' := BeaconOther(r, slot, Some(rx)).(slotReqt := slot, slotReqtAddr := from);
      BeaconMine(r', true).1 == Some(Frame(from, r.me, [Acpt(0), Map(r'.OwnMap())])) && BeaconMine(r', true).0.slotReqt == 0
  {
    BeaconIsNoted(r, slot, rx, sm);
    var r' := BeaconOther(r, slot, Some(rx)).(slotReqt := slot, slotReqtAddr := from);
    assert slot in r'.OwnMap();
    hide BeaconOther, BeaconMine;
    BeaconAnswers(r');
  }

  // ------------------------------------------------------------- pending requests

  /** A frame that asks for a slot, as the service slot takes it. */
  ghost predicate Asks(rx: Option<Frame>, slot: nat, from: nat) {
    rx.Some? && rx.value.dst == BROADCAST && rx.value.src == from && rx.value.msgs != [] && rx.value.msgs[0] == Reqt(slot)
  }

  ghost predicate WellFormed(rx: Option<Frame>) {
    rx.Some? ==> forall i :: 0 <= i < |rx.value.msgs| && rx.value.msgs[i].Reqt? ==> rx.value.msgs[i].reqt < NSLOTS
  }

  /** Superframes of a master with its service slot in each, in which rxs were received, and no beacon slot. */
  ghost function Waits(r: Rti, rxs: seq<Option<Frame>>): (r': Rti)
    requires r.Valid() && forall i :: 0 <= i < |rxs| ==> WellFormed(rxs[i])
    ensures r'.Valid()
    decreases |rxs|
  {
    if rxs == [] then r
    else
      var n := |rxs| - 1;
      assert WellFormed(rxs[n]);
      Service(Superframe(Waits(r, rxs[..n])), rxs[n], true).0
  }

  lemma {:induction false} TickKeepsRequest(r: Rti, i: nat)
    requires r.Valid() && r.role == Anchor && 1 <= i <= NSLOTS
    ensures var r' := TickFrom(r, i);
      r'.slotReqt == r.slotReqt && r'.slotReqtAddr == r.slotReqtAddr && r'.slotReqtCntr == r.slotReqtCntr
      && r'.role == r.role && r'.master == r.master && r'.slotIdx == r.slotIdx
    decreases NSLOTS - i
  {
    if i < NSLOTS {
      TickKeepsRequest(TickNode(r, i), i + 1);
    }
  }

  /** One service slot: a pending request stands until its time is up; then, as without one, the next to ask is noted. */
  lemma ServiceNotes(r: Rti, rx: Option<Frame>)
    requires r.Valid() && r.role == Anchor && r.master && WellFormed(rx)
    ensures var r' := Service(r, rx, true).0;
      && r' == r.(slotReqt := r'.slotReqt, slotReqtAddr := r'.slotReqtAddr, slotReqtCntr := r'.slotReqtCntr)
      && (r.slotReqt != 0 && r.slotReqtCntr <= SLOT_REQT_TIMEOUT ==> r' == r)
      && (r.slotReqt == 0 || r.slotReqtCntr > SLOT_REQT_TIMEOUT ==>
            && (forall slot, from :: Asks(rx, slot, from) ==> r'.slotReqt == slot && r'.slotReqtAddr == from && r'.slotReqtCntr == 0)
            && ((forall slot, from :: !Asks(rx, slot, from)) ==> r'.slotReqt == 0))
  {
    if rx.Some? && rx.value.dst == BROADCAST && rx.value.msgs != [] && rx.value.msgs[0].Reqt? {
      assert Asks(rx, rx.value.msgs[0].reqt, rx.value.src);
    }
  }

  lemma SuperframeCounts(r: Rti)
    requires r.Valid() && r.role == Anchor && r.master && r.slotReqt != 0 && r.slotReqtCntr < POW16 - 1
    ensures var r' := Superframe(r);
      r'.role == Anchor && r'.master && r'.slotReqt == r.slotReqt && r'.slotReqtAddr == r.slotReqtAddr
      && r'.slotReqtCntr == r.slotReqtCntr + 1
  {
    TickKeepsRequest(r, 1);
  }

  /**
   * A request just taken is not overwritten by any later one while it is pending, for five superframes; with the sixth
   * it is dropped, or replaced by a request received then.
   */
  lemma {:induction false} RequestIsPending(r: Rti, rxs: seq<Option<Frame>>)
    requires r.Valid() && r.role == Anchor && r.master && r.slotReqt != 0 && r.slotReqtCntr == 0
    requires |rxs| <= 6 && forall i :: 0 <= i < |rxs| ==> WellFormed(rxs[i])
    ensures var r' := Waits(r, rxs);
      && r'.role == Anchor && r'.master
      && (|rxs| <= 5 ==> r'.slotReqt == r.slotReqt && r'.slotReqtAddr == r.slotReqtAddr && r'.slotReqtCntr == |rxs|)
      && (|rxs| == 6 ==>
            (forall slot, from :: Asks(rxs[5], slot, from) ==> r'.slotReqt == slot && r'.slotReqtAddr == from && r'.slotReqtCntr == 0)
            && ((forall slot, from :: !Asks(rxs[5], slot, from)) ==> r'.slotReqt == 0))
    decreases |rxs|
  {
    if rxs != [] {
      var n := |rxs| - 1;
      RequestIsPending(r, rxs[..n]);
      var w := Waits(r, rxs[..n]);
      SuperframeCounts(w);
      assert WellFormed(rxs[n]);
      hide Superframe, WellFormed;
      ServiceNotes(Superframe(w), rxs[n]);
      hide Service, Asks;
    }
  }
}
