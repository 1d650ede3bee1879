/**
 * Which slots the tags use, in every run at all: the slot of every tag after
 * any step, from that the exact condition under which a run keeps every tag in
 * the slot it was last granted, and the steps that put two tags into one slot.
 */
module TdmaSlots {
  import opened Prelude
  import opened Tdma
  import opened TdmaSystem

  // ------------------------------------------------- a superframe that takes a slot

  /** Beacon node k is in the table once a superframe that began with row `from` has removed row i. */
  ghost predicate Left(r: Rti, from: nat, i: nat, k: int)
    requires r.Valid()
  {
    Known(r, k) && (k < from || k > i || !Expires(r.nodes[k]))
  }

  /** Row i expires, and nobody is left to wait for: a master, or some beacon nodes are left and all of them have accepted. */
  ghost predicate TakesAt(r: Rti, from: nat, i: nat)
    requires r.Valid() && 1 <= i < NSLOTS
  {
    && Expires(r.nodes[i])
    && (r.master || ((exists k :: Left(r, from, i, k)) && forall k :: Left(r, from, i, k) ==> r.nodes[k].accepted))
  }

  ghost predicate TakesFrom(r: Rti, from: nat)
    requires r.Valid() && 1 <= from <= NSLOTS
  {
    exists i: nat :: from <= i < NSLOTS && TakesAt(r, from, i)
  }

  /** The superframe makes a tag take the slot it has asked for. */
  ghost predicate Takes(r: Rti)
    requires r.Valid()
  {
    r.role == Tag && r.slotReqt != 0 && TakesFrom(r, 1)
  }

  /** What one row of a superframe does to the rows of beacon nodes. */
  ghost predicate Ticked(r: Rti, r': Rti, i: nat)
    requires r.Valid() && 1 <= i < NSLOTS
  {
    && r'.Valid() && r'.role == r.role && r'.master == r.master && r'.slotReqt == r.slotReqt
    && (forall j :: i < j < NSLOTS ==> r'.nodes[j].timeout == r.nodes[j].timeout)
    && (forall k :: 1 <= k <= BCN_SLOT_MAX ==>
          if k == i && Expires(r.nodes[k]) then r'.nodes[k].addr == 0
          else r'.nodes[k].addr == r.nodes[k].addr && r'.nodes[k].accepted == r.nodes[k].accepted)
    && (forall k :: 1 <= k <= BCN_SLOT_MAX && k != i ==> r'.nodes[k].timeout == r.nodes[k].timeout)
  }

  /** The table without row i, before what may follow. */
  ghost function Removed(r: Rti, i: nat): (r2: Rti)
    requires r.Valid() && 1 <= i < NSLOTS
    ensures r2.Valid()
  {
    var t := (r.nodes[i].timeout + 1) % POW8;
    NodeRmv(r.(nodes := r.nodes[i := r.nodes[i].(available := false, timeout := t)]), i)
  }

  lemma TickRemoves(r: Rti, i: nat)
    requires r.Valid() && 1 <= i < NSLOTS && Expires(r.nodes[i])
    ensures var r2 := Removed(r, i);
      && r2.slotReqt == r.slotReqt && r2.role == r.role
      && TickNode(r, i) == if r.slotReqt != 0 && AllAccepted(r2) && r.role == Tag then NodeAddMe(r2, r.slotReqt) else r2
  {
    hide AllAccepted, NodeAddMe;
  }

  lemma RemovedRow(r: Rti, i: nat)
    requires r.Valid() && 1 <= i < NSLOTS && Expires(r.nodes[i])
    ensures var r2 := Removed(r, i);
      && Ticked(r, r2, i) && r2.slotIdx == r.slotIdx
      && (AllAccepted(r2) <==>
            r.master || ((exists k :: Left(r, i, i, k)) && forall k :: Left(r, i, i, k) ==> r.nodes[k].accepted))
  {
    var r2 := Removed(r, i);
    assert forall k :: Known(r2, k) <==> Left(r, i, i, k);
    assert forall k :: Known(r2, k) ==> r2.nodes[k].accepted == r.nodes[k].accepted;
  }

  /** A row that does not expire only ages. */
  lemma YoungRow(r: Rti, i: nat)
    requires r.Valid() && 1 <= i < NSLOTS && !Expires(r.nodes[i])
    ensures Ticked(r, TickNode(r, i), i) && TickNode(r, i).slotIdx == r.slotIdx
  {
    hide NodeRmv, NodeAddMe, AllAccepted;
  }

  /** Taking the requested slot changes no row of a beacon node. */
  lemma TickedMoves(r: Rti, r2: Rti, i: nat)
    requires r.Valid() && 1 <= i < NSLOTS && Ticked(r, r2, i) && SVC_SLOT < r.slotReqt
    ensures Ticked(r, NodeAddMe(r2, r.slotReqt), i) && NodeAddMe(r2, r.slotReqt).slotIdx == r.slotReqt
  {
  }

  /** One row: the rest of the table stays, and the slot changes exactly when this row makes it. */
  lemma TickNodeTakes(r: Rti, i: nat)
    requires r.Valid() && 1 <= i < NSLOTS && (r.slotReqt == 0 || SVC_SLOT < r.slotReqt)
    ensures var r' := TickNode(r, i);
      && Ticked(r, r', i)
      && r'.slotIdx == if r.role == Tag && r.slotReqt != 0 && TakesAt(r, i, i) then r.slotReqt else r.slotIdx
  {
    hide TickNode, Removed, NodeAddMe, AllAccepted, Left, Ticked;
    if Expires(r.nodes[i]) {
      TickRemoves(r, i);
      RemovedRow(r, i);
      if r.slotReqt != 0 {
        TickedMoves(r, Removed(r, i), i);
      }
    } else {
      YoungRow(r, i);
    }
  }

  /** Later rows decide as they would have before row i was done. */
  lemma LaterRow(r: Rti, r': Rti, i: nat, j: nat)
    requires r.Valid() && 1 <= i < j < NSLOTS && Ticked(r, r', i)
    ensures TakesAt(r', i + 1, j) <==> TakesAt(r, i, j)
  {
    forall k: int
      ensures Left(r', i + 1, j, k) <==> Left(r, i, j, k)
      ensures Left(r, i, j, k) ==> r'.nodes[k].accepted == r.nodes[k].accepted
    {
    }
    hide Left;
  }

  /** Once in the slot it asked for a node stays there for the rest of the superframe. */
  lemma {:induction false} KeepsRequested(r: Rti, i: nat)
    requires r.Valid() && 1 <= i <= NSLOTS && r.slotIdx == r.slotReqt
    ensures TickFrom(r, i).slotIdx == r.slotReqt
    decreases NSLOTS - i
  {
    if i < NSLOTS {
      KeepsRequested(TickNode(r, i), i + 1);
    }
  }

  lemma FirstOrLater(r: Rti, r': Rti, i: nat)
    requires r.Valid() && 1 <= i < NSLOTS && Ticked(r, r', i)
    ensures TakesFrom(r, i) <==> TakesAt(r, i, i) || TakesFrom(r', i + 1)
  {
    forall j: nat | i < j < NSLOTS
      ensures TakesAt(r', i + 1, j) <==> TakesAt(r, i, j)
    {
      LaterRow(r, r', i, j);
    }
    hide TakesAt;
    if j: nat :| i <= j < NSLOTS && TakesAt(r, i, j) {
      assert j == i || TakesAt(r', i + 1, j);
    }
    var next := i + 1;
    if j: nat :| next <= j < NSLOTS && TakesAt(r', next, j) {
      assert TakesAt(r, i, j);
    }
  }

  lemma TickedKeeps(r: Rti, r': Rti, i: nat)
    requires r.Valid() && 1 <= i < NSLOTS && Ticked(r, r', i)
    ensures r'.Valid() && r'.role == r.role && r'.slotReqt == r.slotReqt
  {
  }

  lemma {:induction false} TickFromTakes(r: Rti, i: nat)
    requires r.Valid() && 1 <= i <= NSLOTS && r.role == Tag && SVC_SLOT < r.slotReqt
    ensures TickFrom(r, i).slotIdx == if TakesFrom(r, i) then r.slotReqt else r.slotIdx
    decreases NSLOTS - i
  {
    if i < NSLOTS {
      hide TickNode, TakesAt, TakesFrom, Ticked;
      var r' := TickNode(r, i);
      TickNodeTakes(r, i);
      TickedKeeps(r, r', i);
      FirstOrLater(r, r', i);
      if TakesAt(r, i, i) {
        KeepsRequested(r', i + 1);
      } else {
        TickFromTakes(r', i + 1);
      }
    }
  }

  lemma {:induction false} NothingToTake(r: Rti, i: nat)
    requires r.Valid() && 1 <= i <= NSLOTS && (r.role == Anchor || r.slotReqt == 0)
    ensures TickFrom(r, i).slotIdx == r.slotIdx
    decreases NSLOTS - i
  {
    if i < NSLOTS {
      NothingToTake(TickNode(r, i), i + 1);
    }
  }

  /** The slot of any node after a superframe: the one it asked for exactly when some row makes it take it. */
  lemma SuperframeTakes(r: Rti)
    requires r.Valid() && (r.slotReqt == 0 || SVC_SLOT < r.slotReqt)
    ensures Superframe(r).slotIdx == if Takes(r) then r.slotReqt else r.slotIdx
  {
    if r.role == Tag && r.slotReqt != 0 {
      TickFromTakes(r, 1);
    } else {
      NothingToTake(r, 1);
    }
  }

  // ------------------------------------------------ a tag in a network of one anchor

  /** What is true of a tag in every run at all; TagOk, which runs that keep the anchor add, is more. */
  ghost predicate TagFits(r: Rti, anchor: nat) {
    && r.Valid() && r.role == Tag && !r.master && r.slotReqtAddr == 0
    && (forall j :: 2 <= j <= BCN_SLOT_MAX ==> r.nodes[j].addr == 0)
    && (r.nodes[MASTER_SLOT].addr == 0 || r.nodes[MASTER_SLOT].addr == anchor)
    && (r.slotReqt == 0 || SVC_SLOT < r.slotReqt)
    && (r.slotIdx == 0 || SVC_SLOT < r.slotIdx)
  }

  /**
   * A tag that knows no other beacon node takes its requested slot in a superframe exactly when the
   * anchor's row stays and says accepted, and another row expires.
   */
  lemma TakesWhen(r: Rti, anchor: nat)
    requires TagFits(r, anchor)
    ensures Takes(r) <==>
      && r.slotReqt != 0
      && r.nodes[MASTER_SLOT].addr != 0 && r.nodes[MASTER_SLOT].accepted && !Expires(r.nodes[MASTER_SLOT])
      && exists i :: 2 <= i < NSLOTS && Expires(r.nodes[i])
  {
    hide Expires;
    var known := r.nodes[MASTER_SLOT].addr != 0 && !Expires(r.nodes[MASTER_SLOT]);
    forall i: nat, k: int | 1 <= i < NSLOTS
      ensures Left(r, 1, i, k) <==> known && k == MASTER_SLOT
    {
      if k == MASTER_SLOT {
        assert Known(r, k) <==> r.nodes[MASTER_SLOT].addr != 0;
      }
    }
    forall i: nat | 1 <= i < NSLOTS
      ensures TakesAt(r, 1, i) <==> known && r.nodes[MASTER_SLOT].accepted && 2 <= i && Expires(r.nodes[i])
    {
      if known {
        assert Left(r, 1, i, MASTER_SLOT);
      }
    }
  }

  lemma TickNodeFits(r: Rti, i: nat, anchor: nat)
    requires TagFits(r, anchor) && 1 <= i < NSLOTS
    ensures TagFits(TickNode(r, i), anchor) && TickNode(r, i).me == r.me
  {
  }

  lemma {:induction false} TickFits(r: Rti, i: nat, anchor: nat)
    requires TagFits(r, anchor) && 1 <= i <= NSLOTS
    ensures TagFits(TickFrom(r, i), anchor) && TickFrom(r, i).me == r.me
    decreases NSLOTS - i
  {
    if i < NSLOTS {
      TickNodeFits(r, i, anchor);
      hide TickNode;
      TickFits(TickNode(r, i), i + 1, anchor);
    }
  }

  /** A frame the anchor can send: an answer or nothing of the kind, then maps. */
  ghost predicate FromAnchor(f: Frame, anchor: nat) {
    && f.src == anchor && |f.msgs| > 0 && !f.msgs[0].Reqt?
    && (forall i :: 1 <= i < |f.msgs| ==> f.msgs[i].Map?)
    && (f.msgs[0].Acpt? ==> f.msgs[0].slotReqt == 0 || SVC_SLOT < f.msgs[0].slotReqt)
  }

  lemma {:induction false} AbsorbsMaps(r: Rti, anchor: nat, f: Frame, i: nat)
    requires TagFits(r, anchor) && f.src == anchor
    requires 1 <= i <= |f.msgs| && forall i :: 1 <= i < |f.msgs| ==> f.msgs[i].Map?
    ensures var r' := AbsorbAll(r, MASTER_SLOT, f, i);
      TagFits(r', anchor) && r'.slotIdx == r.slotIdx && r'.slotReqt == r.slotReqt && r'.me == r.me
    decreases |f.msgs| - i
  {
    if i < |f.msgs| {
      AbsorbsMaps(Absorb(r, MASTER_SLOT, f.src, f.msgs[i]), anchor, f, i + 1);
    }
  }

  /** The sender's row names it by the time its messages are read: it did before, or the tag has no slot and a strong signal. */
  ghost predicate Heeds(r: Rti, anchor: nat, rssi: real)
    requires r.Valid()
  {
    r.nodes[MASTER_SLOT].addr == anchor || (r.slotIdx == 0 && rssi >= -95.0)
  }

  lemma Identified(r: Rti, anchor: nat, f: Frame, rssi: real)
    requires TagFits(r, anchor) && anchor != 0 && f.src == anchor
    ensures var o := Identify(r, MASTER_SLOT, Rx(f, rssi));
      && (o.None? ==> !Heeds(r, anchor, rssi))
      && (o.Some? ==>
            var r1 := MarkAlive(o.value, MASTER_SLOT);
            && TagFits(r1, anchor) && r1.slotIdx == r.slotIdx && r1.slotReqt == r.slotReqt && r1.me == r.me
            && (r1.nodes[MASTER_SLOT].addr == anchor <==> Heeds(r, anchor, rssi)))
  {
  }

  lemma AbsorbsFirst(r: Rti, anchor: nat, src: nat, m: Msg)
    requires TagFits(r, anchor) && anchor != 0 && src == anchor
    ensures var r' := Absorb(r, MASTER_SLOT, src, m);
      && TagFits(r', anchor) && r'.me == r.me
      && (r'.slotIdx, r'.slotReqt) ==
           if m == Acpt(r.slotReqt) && r.nodes[MASTER_SLOT].addr == anchor then (r.slotReqt, 0) else (r.slotIdx, r.slotReqt)
  {
    if m == Acpt(r.slotReqt) {
      var r1 := r.(nodes := r.nodes[MASTER_SLOT := r.nodes[MASTER_SLOT].(accepted := true)]);
      assert Known(r1, MASTER_SLOT) <==> r.nodes[MASTER_SLOT].addr == anchor;
      assert AllAccepted(r1) <==> r.nodes[MASTER_SLOT].addr == anchor;
    }
  }

  /** The slot of any tag after the anchor's beacon: the one it asked for exactly when that is what it is told. */
  lemma HearsSlot(r: Rti, anchor: nat, f: Frame, rssi: real)
    requires TagFits(r, anchor) && anchor != 0 && FromAnchor(f, anchor)
    ensures var r' := BeaconOther(r, MASTER_SLOT, Some(Rx(f, rssi)));
      && TagFits(r', anchor) && r'.me == r.me
      && (r'.slotIdx, r'.slotReqt) ==
           if f.dst == r.me && f.msgs[0] == Acpt(r.slotReqt) && Heeds(r, anchor, rssi) then (r.slotReqt, 0)
           else (r.slotIdx, r.slotReqt)
  {
    Identified(r, anchor, f, rssi);
    var o := Identify(r, MASTER_SLOT, Rx(f, rssi));
    hide Identify, Heeds, Absorb, TagFits;
    if o.Some? && !(f.msgs[0].Acpt? && f.dst != r.me) {
      var r1 := MarkAlive(o.value, MASTER_SLOT);
      hide MarkAlive;
      AbsorbsFirst(r1, anchor, f.src, f.msgs[0]);
      AbsorbsMaps(Absorb(r1, MASTER_SLOT, f.src, f.msgs[0]), anchor, f, 1);
    }
  }

  lemma ServesSlot(r: Rti, anchor: nat, alloc: bool)
    requires TagFits(r, anchor)
    ensures var r' := Service(r, None, alloc).0;
      TagFits(r', anchor) && r'.slotIdx == r.slotIdx && r'.me == r.me
  {
  }

  // --------------------------------------------------------- one step, all runs

  /** What is true of the whole system in every run at all. */
  ghost predicate SystemOk(s: Sys) {
    && AnchorSide(s)
    && forall t :: t in s.tags ==> t != s.anchor.me && s.tags[t].me == t && TagFits(s.tags[t], s.anchor.me)
  }

  /** The anchor's beacon tells tag t that it concedes what t asked for, and t heeds it. */
  ghost predicate Answered(s: Sys, e: Event, t: nat)
    requires WellTyped(s) && t in s.tags
  {
    && e.AnchorBeacon? && e.alloc && t in e.heard
    && s.anchor.slotReqt != 0 && s.anchor.slotReqtAddr == t && Conceded(s.anchor) == s.tags[t].slotReqt
    && Heeds(s.tags[t], s.anchor.me, e.heard[t])
  }

  /** The step makes tag t take the slot it has asked for. */
  ghost predicate Moves(s: Sys, e: Event, t: nat)
    requires WellTyped(s) && t in s.tags
  {
    Answered(s, e, t) || (e == TagTick(t) && Takes(s.tags[t]))
  }

  /** The slot of tag t after step e. */
  ghost function SlotAfter(s: Sys, e: Event, t: nat): nat
    requires WellTyped(s) && t in s.tags
  {
    if Moves(s, e, t) then s.tags[t].slotReqt
    else if e.TagReset? && e.tag == t then 0
    else s.tags[t].slotIdx
  }

  /** The slot tag t was last granted, 0 when it never was. */
  ghost function LastGrant(s: Sys, t: nat): nat {
    if t in s.held then s.held[t].slot else 0
  }

  ghost function GrantAfter(s: Sys, e: Event, t: nat): nat
    requires WellTyped(s) && t in s.tags
  {
    if Answered(s, e, t) && s.tags[t].slotReqt != 0 then s.tags[t].slotReqt else LastGrant(s, t)
  }

  /** What a step does to one tag. */
  ghost predicate TagAfter(s: Sys, e: Event, s': Sys, t: nat)
    requires WellTyped(s) && t in s.tags
  {
    && t in s'.tags && s'.tags[t].me == t && TagFits(s'.tags[t], s.anchor.me)
    && s'.tags[t].slotIdx == SlotAfter(s, e, t)
    && LastGrant(s', t) == GrantAfter(s, e, t)
  }

  /** A step of tag u alone. */
  lemma OnlyTag(s: Sys, e: Event, s': Sys, u: nat, r: Rti, t: nat)
    requires SystemOk(s) && t in s.tags && u in s.tags
    requires (e.TagTick? || e.TagService? || e.TagRanging? || e.TagReset?) && e.tag == u
    requires s'.tags == s.tags[u := r] && s'.held == s.held
    requires TagFits(r, s.anchor.me) && r.me == u && r.slotIdx == SlotAfter(s, e, u)
    ensures TagAfter(s, e, s', t)
  {
    hide Takes, TagFits;
  }

  lemma TickStep(s: Sys, u: nat, t: nat)
    requires SystemOk(s) && t in s.tags && u in s.tags
    ensures TagAfter(s, TagTick(u), Next(s, TagTick(u), false), t)
  {
    var r := Superframe(s.tags[u]);
    TickFits(s.tags[u], 1, s.anchor.me);
    SuperframeTakes(s.tags[u]);
    assert TagFits(r, s.anchor.me) && r.me == u;
    hide Superframe, Takes, TagFits;
    OnlyTag(s, TagTick(u), Next(s, TagTick(u), false), u, r, t);
  }

  lemma ServiceStep(s: Sys, u: nat, alloc: bool, delivered: bool, t: nat)
    requires SystemOk(s) && t in s.tags && u in s.tags
    ensures var e := TagService(u, alloc, delivered); TagAfter(s, e, Next(s, e, false), t)
  {
    var e := TagService(u, alloc, delivered);
    ServesSlot(s.tags[u], s.anchor.me, alloc);
    hide Service, TagFits;
    OnlyTag(s, e, Next(s, e, false), u, Service(s.tags[u], None, alloc).0, t);
  }

  lemma OtherStep(s: Sys, e: Event, t: nat)
    requires SystemOk(s) && Enabled(s, e, false) && t in s.tags
    requires e.TagRanging? || e.TagReset?
    ensures TagAfter(s, e, Next(s, e, false), t)
  {
    var u := e.tag;
    var r := if e.TagRanging? then Ranging(s.tags[u], s.tags[u].slotIdx, None) else SyncReset(s.tags[u], e.sync);
    OnlyTag(s, e, Next(s, e, false), u, r, t);
  }

  /** What the anchor sends, from its state before the beacon. */
  lemma BeaconSays(a: Rti, alloc: bool)
    requires AnchorOk(a) && a.slotIdx == MASTER_SLOT
    ensures var tx := BeaconMine(a, alloc).1;
      && (tx.Some? <==> alloc)
      && (tx.Some? ==>
            && FromAnchor(tx.value, a.me)
            && (tx.value.msgs[0].Acpt? <==> a.slotReqt != 0)
            && (a.slotReqt != 0 ==> tx.value.dst == a.slotReqtAddr && tx.value.msgs[0] == Acpt(Conceded(a))))
    ensures BeaconMine(a, alloc).0.me == a.me
  {
  }

  /** The tag that hears the beacon, and the slot it is in then. */
  lemma BeaconTag(s: Sys, alloc: bool, heard: map<nat, real>, f: Frame, t: nat)
    requires SystemOk(s) && s.anchor.slotIdx == MASTER_SLOT && t in s.tags && t in heard
    requires BeaconMine(s.anchor, alloc).1 == Some(f)
    ensures var r' := BeaconOther(s.tags[t], MASTER_SLOT, Some(Rx(f, heard[t])));
      && TagFits(r', s.anchor.me) && r'.me == t
      && r'.slotIdx == SlotAfter(s, AnchorBeacon(alloc, heard), t)
      && r'.slotReqt == if Answered(s, AnchorBeacon(alloc, heard), t) then 0 else s.tags[t].slotReqt
    ensures Answered(s, AnchorBeacon(alloc, heard), t) <==>
      f.dst == t && f.msgs[0] == Acpt(s.tags[t].slotReqt) && Heeds(s.tags[t], s.anchor.me, heard[t])
    ensures FromAnchor(f, s.anchor.me)
  {
    BeaconSays(s.anchor, alloc);
    HearsSlot(s.tags[t], s.anchor.me, f, heard[t]);
    hide BeaconMine, BeaconOther, Heeds, Conceded, TagFits;
  }

  lemma AdoptsAddressee(s: Sys, f: Frame, heard: map<nat, real>, t: nat)
    requires WellTyped(s) && Adopts(s.tags, f, heard, t)
    ensures f.dst == t && |f.msgs| > 0 && f.msgs[0].Acpt?
  {
    hide Hear;
  }

  /** One tag's grant on record after the anchor's beacon. */
  lemma GrantAfterBeacon(s: Sys, a: Rti, tx: Option<Frame>, heard: map<nat, real>, t: nat)
    requires WellTyped(s) && a.Valid()
    ensures tx.Some? && Adopts(s.tags, tx.value, heard, t) ==> |tx.value.msgs| > 0 && tx.value.msgs[0].Acpt?
    ensures LastGrant(AfterBeacon(s, a, tx, heard), t) ==
      if tx.Some? && Adopts(s.tags, tx.value, heard, t) && tx.value.msgs[0].slotReqt < NSLOTS
      then tx.value.msgs[0].slotReqt else LastGrant(s, t)
  {
    if tx.Some? {
      if Adopts(s.tags, tx.value, heard, t) {
        AdoptsAddressee(s, tx.value, heard, t);
      }
      if Adopts(s.tags, tx.value, heard, tx.value.dst) {
        AdoptsAddressee(s, tx.value, heard, tx.value.dst);
      }
    }
    hide Hear, Adopts, Count;
  }

  lemma BeaconStep(s: Sys, alloc: bool, heard: map<nat, real>, t: nat)
    requires SystemOk(s) && Enabled(s, AnchorBeacon(alloc, heard), false) && t in s.tags
    ensures TagAfter(s, AnchorBeacon(alloc, heard), Next(s, AnchorBeacon(alloc, heard), false), t)
  {
    var (a, tx) := BeaconMine(s.anchor, alloc);
    BeaconSays(s.anchor, alloc);
    TableAfter(s, a, tx, heard, t);
    GrantAfterBeacon(s, a, tx, heard, t);
    hide BeaconMine, BeaconOther, Heeds, Conceded;
    if tx.Some? && t in heard {
      BeaconTag(s, alloc, heard, tx.value, t);
      BeaconGrantsTag(s, alloc, heard, tx.value, t);
    }
    hide AfterBeacon, TagFits, Adopts, FromAnchor;
  }

  lemma BeaconGrantsTag(s: Sys, alloc: bool, heard: map<nat, real>, f: Frame, t: nat)
    requires SystemOk(s) && s.anchor.slotIdx == MASTER_SLOT && t in s.tags && t in heard
    requires BeaconMine(s.anchor, alloc).1 == Some(f)
    ensures Adopts(s.tags, f, heard, t) && f.msgs[0].slotReqt < NSLOTS <==>
      Answered(s, AnchorBeacon(alloc, heard), t) && s.tags[t].slotReqt != 0
    ensures Adopts(s.tags, f, heard, t) ==> f.msgs[0].slotReqt == s.tags[t].slotReqt
  {
    BeaconTag(s, alloc, heard, f, t);
    hide BeaconMine, BeaconOther, Heeds, Conceded;
  }

  /** A step that leaves the tags and their grants alone. */
  lemma NoTag(s: Sys, e: Event, s': Sys, t: nat)
    requires SystemOk(s) && t in s.tags && (e.AnchorTick? || e.AnchorService? || e.AnchorReset?)
    requires s'.tags == s.tags && s'.held == s.held
    ensures TagAfter(s, e, s', t)
  {
    hide TagFits, AnchorSide;
  }

  lemma AnchorStep(s: Sys, e: Event, t: nat)
    requires SystemOk(s) && Enabled(s, e, false) && t in s.tags
    requires e.AnchorTick? || e.AnchorService? || e.AnchorReset?
    ensures TagAfter(s, e, Next(s, e, false), t)
  {
    NoTag(s, e, Next(s, e, false), t) by {
      hide Superframe, Service, SyncReset, SystemOk, TagAfter;
    }
    hide Next, TagAfter;
  }

  /** The slot of every tag after every step. */
  lemma StepMoves(s: Sys, e: Event, t: nat)
    requires SystemOk(s) && Enabled(s, e, false) && t in s.tags
    ensures TagAfter(s, e, Next(s, e, false), t)
  {
    hide TagAfter, Next, SystemOk;
    match e
    case AnchorTick => AnchorStep(s, e, t);
    case AnchorBeacon(alloc, heard) => BeaconStep(s, alloc, heard, t);
    case AnchorService => AnchorStep(s, e, t);
    case AnchorReset(_) => AnchorStep(s, e, t);
    case TagTick(u) => TickStep(s, u, t);
    case TagService(u, alloc, delivered) => ServiceStep(s, u, alloc, delivered, t);
    case TagRanging(_, _) => OtherStep(s, e, t);
    case TagReset(_, _) => OtherStep(s, e, t);
  }

  lemma TickKeepsName(a: Rti)
    requires AnchorOk(a)
    ensures Superframe(a).me == a.me
  {
    AnchorTickRevokes(a, 1);
  }

  lemma ServiceKeepsName(s: Sys, u: nat, alloc: bool, delivered: bool)
    requires SystemOk(s) && u in s.tags
    ensures var s' := Next(s, TagService(u, alloc, delivered), false);
      s'.tags.Keys == s.tags.Keys && s'.anchor.me == s.anchor.me
  {
    TagAsks(s.tags[u], alloc);
    AnchorServes(s.anchor, Service(s.tags[u], None, alloc).1);
    hide Service;
  }

  lemma NextKeeps(s: Sys, e: Event)
    requires SystemOk(s) && Enabled(s, e, false)
    ensures Next(s, e, false).tags.Keys == s.tags.Keys && Next(s, e, false).anchor.me == s.anchor.me
  {
    hide Superframe, Service, BeaconMine, BeaconOther;
    match e
    case AnchorTick => TickKeepsName(s.anchor);
    case AnchorBeacon(alloc, _) => BeaconSays(s.anchor, alloc);
    case AnchorService => AnchorServes(s.anchor, None);
    case AnchorReset(_) =>
    case TagTick(_) =>
    case TagService(u, alloc, delivered) => ServiceKeepsName(s, u, alloc, delivered);
    case TagRanging(_, _) =>
    case TagReset(_, _) =>
  }

  /** From what the step does to each tag. */
  lemma TagsFit(s: Sys, e: Event, s': Sys)
    requires SystemOk(s) && AnchorSide(s') && s'.tags.Keys == s.tags.Keys && s'.anchor.me == s.anchor.me
    requires forall t :: t in s.tags ==> TagAfter(s, e, s', t)
    ensures SystemOk(s')
  {
    SystemTyped(s);
    hide SlotAfter, GrantAfter, AnchorSide, TagFits;
    forall t | t in s'.tags
      ensures t != s'.anchor.me && s'.tags[t].me == t && TagFits(s'.tags[t], s'.anchor.me)
    {
      assert TagAfter(s, e, s', t);
    }
  }

  lemma StepOk(s: Sys, e: Event)
    requires SystemOk(s) && Enabled(s, e, false)
    ensures SystemOk(Next(s, e, false))
  {
    NextKeeps(s, e);
    AnyStepKeeps(s, e, false, SVC_SLOT + 1);
    SystemTyped(s);
    var s' := Next(s, e, false);
    hide Next, TagAfter, AnchorSide, Enabled, SystemOk;
    forall t | t in s.tags
      ensures TagAfter(s, e, s', t)
    {
      StepMoves(s, e, t);
    }
    TagsFit(s, e, s');
  }

  lemma InitOk(s: Sys)
    requires Init(s)
    ensures SystemOk(s) && AllInGrant(s) && GrantsOk(s)
  {
  }

  // ---------------------------------------------- every slot in use is the last one granted

  /** Tag t has no slot, or the one it was last granted. */
  ghost predicate InGrant(s: Sys, t: nat)
    requires t in s.tags
  {
    s.tags[t].slotIdx == 0 || s.tags[t].slotIdx == LastGrant(s, t)
  }

  ghost predicate AllInGrant(s: Sys) {
    forall t :: t in s.tags ==> InGrant(s, t)
  }

  /** The superframe takes a tag to a slot that is not its last grant. */
  ghost predicate Leaves(s: Sys, e: Event)
    requires WellTyped(s)
  {
    e.TagTick? && e.tag in s.tags && Takes(s.tags[e.tag]) && s.tags[e.tag].slotReqt != LastGrant(s, e.tag)
  }

  lemma TagStaysInGrant(s: Sys, e: Event, s': Sys, t: nat)
    requires WellTyped(s) && t in s.tags && InGrant(s, t) && TagAfter(s, e, s', t)
    requires s.tags[t].slotReqt == 0 || SVC_SLOT < s.tags[t].slotReqt
    ensures InGrant(s', t) <==> !(Leaves(s, e) && e.tag == t)
  {
    hide TakesFrom, Conceded, Heeds, TagFits;
  }

  /** Every tag stays in its last grant, except in the superframes that take it away from there. */
  lemma StepStaysInGrant(s: Sys, e: Event)
    requires SystemOk(s) && AllInGrant(s) && Enabled(s, e, false)
    ensures AllInGrant(Next(s, e, false)) <==> !Leaves(s, e)
  {
    NextKeeps(s, e);
    var s' := Next(s, e, false);
    hide Next, Enabled;
    forall t | t in s.tags
      ensures t in s'.tags && (InGrant(s', t) <==> !(Leaves(s, e) && e.tag == t))
    {
      StepMoves(s, e, t);
      TagStaysInGrant(s, e, s', t);
    }
    hide Leaves, InGrant, SystemOk;
    if Leaves(s, e) {
      assert e.tag in s.tags by { LeavesATag(s, e); }
    }
  }

  lemma LeavesATag(s: Sys, e: Event)
    requires WellTyped(s) && Leaves(s, e)
    ensures e.TagTick? && e.tag in s.tags
  {
  }

  /** No superframe of the run takes a tag away from its last grant. */
  ghost predicate NeverLeaves(s: Sys, es: seq<Event>)
    requires WellTyped(s) && CanRun(s, es, false)
    decreases |es|
  {
    es == [] || (!Leaves(s, es[0]) && NeverLeaves(Next(s, es[0], false), es[1..]))
  }

  /** Along the whole run, from the first state to the last, every slot in use is the last one granted to its tag. */
  ghost predicate AlwaysInGrant(s: Sys, es: seq<Event>)
    requires WellTyped(s) && CanRun(s, es, false)
    decreases |es|
  {
    AllInGrant(s) && (es == [] || AlwaysInGrant(Next(s, es[0], false), es[1..]))
  }

  lemma SystemTyped(s: Sys)
    requires SystemOk(s)
    ensures WellTyped(s)
  {
  }

  lemma {:induction false} RunOk(s: Sys, es: seq<Event>)
    requires SystemOk(s) && CanRun(s, es, false)
    ensures SystemOk(Run(s, es, false))
    decreases |es|
  {
    hide SystemOk, Enabled;
    SystemTyped(s);
    if es != [] {
      StepOk(s, es[0]);
      RunOk(Next(s, es[0], false), es[1..]);
    }
  }

  lemma {:induction false} RunStaysInGrant(s: Sys, es: seq<Event>)
    requires SystemOk(s) && AllInGrant(s) && CanRun(s, es, false)
    ensures AlwaysInGrant(s, es) <==> NeverLeaves(s, es)
    ensures NeverLeaves(s, es) ==> AllInGrant(Run(s, es, false))
    decreases |es|
  {
    hide SystemOk, AllInGrant, Leaves, Enabled;
    SystemTyped(s);
    if es != [] {
      var s1 := Next(s, es[0], false);
      hide Next;
      StepOk(s, es[0]);
      StepStaysInGrant(s, es[0]);
      if AllInGrant(s1) {
        RunStaysInGrant(s1, es[1..]);
      }
    }
  }

  /**
   * The slots in use are the slots granted, in the exact form: all through a run every tag that has a slot has
   * the one it was last granted if and only if no superframe of the run takes a tag away from its last grant.
   */
  lemma {:induction false} SlotsAreGranted(s0: Sys, es: seq<Event>)
    requires Init(s0) && CanRun(s0, es, false)
    ensures AlwaysInGrant(s0, es) <==> NeverLeaves(s0, es)
  {
    InitOk(s0);
    RunStaysInGrant(s0, es);
  }

  /**
   * The exclusion theorem: in every state such a run can reach, every tag that has a slot got it from a grant;
   * while the anchor has not cleared the slot's bit since, the anchor's table names that tag, and so no two
   * tags share the slot.
   */
  lemma {:induction false} SlotsAreExclusive(s0: Sys, es: seq<Event>, t: nat, u: nat)
    requires Init(s0) && CanRun(s0, es, false) && NeverLeaves(s0, es)
    requires var s := Run(s0, es, false); t in s.tags && u in s.tags && s.tags[t].slotIdx != 0
    ensures var s := Run(s0, es, false);
      var k := s.tags[t].slotIdx;
      && SVC_SLOT < k
      && t in s.held && s.held[t].slot == k && s.held[t].clears <= s.clears[k]
      && (HoldsCurrent(s, t) ==> Recorded(s, t, k))
      && (t != u && s.tags[u].slotIdx == k ==> !(HoldsCurrent(s, t) && HoldsCurrent(s, u)))
  {
    var s := Run(s0, es, false);
    InitOk(s0);
    RunOk(s0, es);
    RunStaysInGrant(s0, es);
    AnyRunKeepsGrants(s0, es, false);
    hide Run, CanRun, NeverLeaves, Init, AnchorSide;
    assert InGrant(s, t) && TagFits(s.tags[t], s.anchor.me);
    assert t in s.held ==> GrantOk(s, t);
    assert u in s.held ==> GrantOk(s, u);
  }

  /** A tag that keeps the anchor through a superframe does not move in it. */
  lemma KeptAnchorStays(s: Sys, e: Event)
    requires Inv(s) && Enabled(s, e, true)
    ensures !Leaves(s, e)
  {
  }

  /** Runs in which no tag times the anchor out are among those in which no superframe moves a tag. */
  lemma {:induction false} KeptAnchorNeverLeaves(s: Sys, es: seq<Event>)
    requires Inv(s) && CanRun(s, es, true)
    ensures CanRun(s, es, false) && NeverLeaves(s, es) && Run(s, es, false) == Run(s, es, true)
    decreases |es|
  {
    if es != [] {
      KeptAnchorStays(s, es[0]);
      StepKeeps(s, es[0]);
      assert Next(s, es[0], true) == Next(s, es[0], false);
      hide Next, Inv, Leaves;
      KeptAnchorNeverLeaves(Next(s, es[0], true), es[1..]);
    }
  }

  // ------------------------------------------------------- two tags in one slot

  ghost predicate Shared(s: Sys, t: nat, u: nat)
    requires t in s.tags && u in s.tags
  {
    t != u && s.tags[t].slotIdx == s.tags[u].slotIdx && s.tags[t].slotIdx != 0
  }

  ghost predicate Distinct(s: Sys) {
    forall t, u :: t in s.tags && u in s.tags ==> !Shared(s, t, u)
  }

  /** The step makes tag t take the slot that tag u is in. */
  ghost predicate Collides(s: Sys, e: Event, t: nat, u: nat)
    requires WellTyped(s)
  {
    && t in s.tags && u in s.tags && t != u
    && Moves(s, e, t) && s.tags[u].slotIdx == s.tags[t].slotReqt && s.tags[u].slotIdx != 0
  }

  lemma PairAfter(s: Sys, e: Event, s': Sys, t: nat, u: nat)
    requires WellTyped(s) && t in s.tags && u in s.tags && !Shared(s, t, u)
    requires TagAfter(s, e, s', t) && TagAfter(s, e, s', u)
    ensures Shared(s', t, u) <==> Collides(s, e, t, u) || Collides(s, e, u, t)
  {
    hide Takes, Conceded, Heeds, TagFits, GrantAfter;
  }

  /** No step but one that moves a tag into a slot in use makes two tags share a slot. */
  lemma StepShares(s: Sys, e: Event)
    requires SystemOk(s) && Enabled(s, e, false) && Distinct(s)
    ensures Distinct(Next(s, e, false)) <==> !exists t, u :: Collides(s, e, t, u)
  {
    NextKeeps(s, e);
    SystemTyped(s);
    var s' := Next(s, e, false);
    hide Next, Enabled, TagAfter, SystemOk, Moves;
    forall t, u | t in s.tags && u in s.tags
      ensures t in s'.tags && u in s'.tags && (Shared(s', t, u) <==> Collides(s, e, t, u) || Collides(s, e, u, t))
    {
      StepMoves(s, e, t);
      StepMoves(s, e, u);
      PairAfter(s, e, s', t, u);
    }
    if t, u :| Collides(s, e, t, u) {
      assert Shared(s', t, u);
    }
  }

  /**
   * In a run that keeps the tags in their grants, a beacon makes two tags share slot k exactly when it concedes k,
   * heard, to the tag that asked for it while another tag is in slot k; and the bit of that other tag's slot has
   * been cleared since it was granted.
   */
  lemma {:induction false} BeaconShares(s0: Sys, es: seq<Event>, s: Sys, alloc: bool, heard: map<nat, real>)
    requires Init(s0) && CanRun(s0, es, false) && NeverLeaves(s0, es) && s == Run(s0, es, false)
    requires Enabled(s, AnchorBeacon(alloc, heard), false) && Distinct(s)
    ensures var e := AnchorBeacon(alloc, heard);
      && (Distinct(Next(s, e, false)) <==> !exists t, u :: Collides(s, e, t, u))
      && forall t, u :: Collides(s, e, t, u) ==>
           && Answered(s, e, t) && SVC_SLOT < s.tags[u].slotIdx
           && u in s.held && s.held[u].slot == s.tags[u].slotIdx && s.held[u].clears < s.clears[s.tags[u].slotIdx]
  {
    var e := AnchorBeacon(alloc, heard);
    InitOk(s0);
    RunOk(s0, es);
    RunStaysInGrant(s0, es);
    AnyRunKeepsGrants(s0, es, false);
    StepShares(s, e);
    hide Run, CanRun, NeverLeaves, Init, Next, Distinct;
    forall t, u | Collides(s, e, t, u)
      ensures && Answered(s, e, t) && SVC_SLOT < s.tags[u].slotIdx
        && u in s.held && s.held[u].slot == s.tags[u].slotIdx && s.held[u].clears < s.clears[s.tags[u].slotIdx]
    {
      SharedWasRevoked(s, e, t, u);
    }
  }

  lemma SharedWasRevoked(s: Sys, e: Event, t: nat, u: nat)
    requires SystemOk(s) && AllInGrant(s) && GrantsOk(s) && e.AnchorBeacon? && Enabled(s, e, false)
    requires Collides(s, e, t, u)
    ensures Answered(s, e, t) && SVC_SLOT < s.tags[u].slotIdx
    ensures u in s.held && s.held[u].slot == s.tags[u].slotIdx && s.held[u].clears < s.clears[s.tags[u].slotIdx]
  {
    hide AnchorSide;
    assert InGrant(s, u) && TagFits(s.tags[u], s.anchor.me);
    assert GrantOk(s, u);
    assert s.tags[u].slotIdx !in s.anchor.OwnMap();
  }
}
