/**
 * Slot allocation of one node (firmware/lib/rtls_tdma/src/rtls_tdma.c).
 *
 * The callbacks are given twice: as functions on a value of type Rti, used to
 * reason about runs, and as methods of the class TdmaInstance, which update the
 * node table in place and are proved to compute those functions.
 */
module Tdma {
  import opened Prelude

  const NSLOTS: nat := 20
  const BCN_SLOT_MAX: nat := 14
  const SVC_SLOT: nat := 15
  const MASTER_SLOT: nat := 1
  const SLOT_REQT_TIMEOUT: nat := 5
  const ANCHOR_TIMEOUT: nat := 10
  const BROADCAST: nat := 0xFFFF

  /** The set of slots whose bit is one in a 64-bit slot map. */
  type SlotMap = set<nat>

  datatype Role = Anchor | Tag

  /** One row of the node table. */
  datatype Node = Node(addr: nat, slotMap: SlotMap, timeout: nat, available: bool, accepted: bool)

  /** What memset and the reserved first slot leave in a row. */
  const CLEARED: Node := Node(0, {0}, 0, false, false)

  datatype Rti = Rti(role: Role, master: bool, me: nat, seqno: nat,
                     slotIdx: nat, slotReqt: nat, slotReqtCntr: nat, slotReqtAddr: nat,
                     nodes: seq<Node>)
  {
    ghost predicate Valid() {
      && |nodes| == NSLOTS
      && slotIdx < NSLOTS
      && slotReqt < NSLOTS
    }

    /** The slot map this node advertises. */
    ghost function OwnMap(): SlotMap
      requires Valid()
    {
      nodes[slotIdx].slotMap
    }
  }

  datatype Msg = Acpt(slotReqt: nat) | Loca | Map(slotMap: SlotMap) | Reqt(reqt: nat)

  datatype Frame = Frame(dst: nat, src: nat, msgs: seq<Msg>)

  /** A frame of this network as the radio delivers it, with its signal strength in dBm. */
  datatype Rx = Rx(frame: Frame, rssi: real)

  datatype Sync = Lost | Syed

  // ---------------------------------------------------------------- table

  ghost function NodeRmv(r: Rti, idx: nat): (r': Rti)
    requires r.Valid() && idx < NSLOTS
    ensures r'.Valid()
  {
    var own := r.nodes[r.slotIdx];
    var nodes := r.nodes[r.slotIdx := own.(slotMap := own.slotMap - {idx})];
    r.(nodes := nodes[idx := CLEARED])
  }

  ghost function NodeAddMe(r: Rti, idx: nat): (r': Rti)
    requires r.Valid() && idx < NSLOTS
    ensures r'.Valid()
  {
    r.(slotIdx := idx,
       nodes := r.nodes[idx := r.nodes[idx].(slotMap := r.nodes[0].slotMap + {idx}, addr := r.me, accepted := true)])
  }

  /** A known beacon node. */
  ghost predicate Known(r: Rti, i: int)
    requires r.Valid()
  {
    1 <= i <= BCN_SLOT_MAX && r.nodes[i].addr != 0
  }

  /** Nothing is left to wait for: the master, or a node every known beacon node has accepted. */
  ghost predicate AllAccepted(r: Rti)
    requires r.Valid()
  {
    r.master
    || ((exists i :: Known(r, i)) && forall i :: Known(r, i) ==> r.nodes[i].accepted)
  }

  // ------------------------------------------------------------ superframe

  /** The part of superframe_cb that concerns row i. */
  ghost function TickNode(r: Rti, i: nat): (r': Rti)
    requires r.Valid() && 1 <= i < NSLOTS
    ensures r'.Valid()
  {
    var t := (r.nodes[i].timeout + 1) % POW8;
    var r1 := r.(nodes := r.nodes[i := r.nodes[i].(available := false, timeout := t)]);
    if t > ANCHOR_TIMEOUT then
      var r2 := NodeRmv(r1, i);
      if r2.slotReqt != 0 && AllAccepted(r2) && r2.role == Tag then NodeAddMe(r2, r2.slotReqt) else r2
    else r1
  }

  ghost function TickFrom(r: Rti, i: nat): (r': Rti)
    requires r.Valid() && 1 <= i <= NSLOTS
    ensures r'.Valid()
    decreases NSLOTS - i, r
  {
    if i == NSLOTS then r else TickFrom(TickNode(r, i), i + 1)
  }

  ghost function Superframe(r: Rti): (r': Rti)
    requires r.Valid()
    ensures r'.Valid()
  {
    var r1 := TickFrom(r, 1);
    if r1.slotReqt != 0 then r1.(slotReqtCntr := (r1.slotReqtCntr + 1) % POW16) else r1
  }

  // ---------------------------------------------------------------- beacon

  /** The slot conceded to the pending request, or 0 when its bit is taken. */
  ghost function Conceded(r: Rti): nat
    requires r.Valid()
  {
    if r.slotReqt !in r.OwnMap() then r.slotReqt else 0
  }

  /** My own beacon slot; alloc says whether the frame buffer could be allocated. */
  ghost function BeaconMine(r: Rti, alloc: bool): (p: (Rti, Option<Frame>))
    requires r.Valid()
    ensures p.0.Valid()
  {
    var r1 := r.(nodes := r.nodes[r.slotIdx := r.nodes[r.slotIdx].(available := true, timeout := 0)]);
    if !alloc then (r1, None)
    else
      var sent := r1.(seqno := (r1.seqno + 1) % POW8);
      if r.slotReqt != 0 then
        var slot := Conceded(r);
        var frame := Frame(r.slotReqtAddr, r.me, [Acpt(slot), Map(r.OwnMap())]);
        if slot == 0 then (sent.(slotReqt := 0), Some(frame))
        else if slot > SVC_SLOT then
          var own := sent.nodes[r.slotIdx];
          var nodes := sent.nodes[r.slotIdx := own.(slotMap := own.slotMap + {slot})];
          (sent.(nodes := nodes[slot := nodes[slot].(addr := r.slotReqtAddr)], slotReqt := 0), Some(frame))
        else (sent, Some(frame))
      else
        (sent, Some(Frame(BROADCAST, r.me, if r.seqno % 2 == 1 then [Loca] else [Map(r.OwnMap())])))
  }

  /** Who is in the slot of the beacon just received; None when the frame is ignored as too weak. */
  ghost function Identify(r: Rti, slot: nat, rx: Rx): (o: Option<Rti>)
    requires r.Valid() && 1 <= slot <= BCN_SLOT_MAX
    ensures o.Some? ==> o.value.Valid()
  {
    var src := rx.frame.src;
    if src == r.nodes[slot].addr then Some(r)
    else if r.slotIdx != 0 then
      if r.slotReqt != 0 && r.slotReqtAddr == src then
        Some(r.(slotReqt := 0, nodes := r.nodes[slot := r.nodes[slot].(addr := src, accepted := true)]))
      else if r.role == Anchor && rx.rssi > -95.0 then
        Some(r.(nodes := r.nodes[slot := r.nodes[slot].(addr := src, accepted := true)]))
      else Some(r)
    else if rx.rssi < -95.0 then None
    else Some(r.(nodes := r.nodes[slot := r.nodes[slot].(addr := src)]))
  }

  /** The row is alive in this superframe, and its slot is taken. */
  ghost function MarkAlive(r: Rti, slot: nat): (r': Rti)
    requires r.Valid() && 1 <= slot <= BCN_SLOT_MAX
    ensures r'.Valid()
  {
    var nodes := r.nodes[slot := r.nodes[slot].(available := true, timeout := 0)];
    r.(nodes := nodes[r.slotIdx := nodes[r.slotIdx].(slotMap := nodes[r.slotIdx].slotMap + {slot})])
  }

  /** One message of a beacon, other than an ACPT addressed to somebody else. */
  ghost function Absorb(r: Rti, slot: nat, src: nat, m: Msg): (r': Rti)
    requires r.Valid() && 1 <= slot <= BCN_SLOT_MAX
    ensures r'.Valid()
  {
    match m
    case Acpt(s) =>
      if s == r.slotReqt then
        var r1 := r.(nodes := r.nodes[slot := r.nodes[slot].(accepted := true)]);
        if AllAccepted(r1) then NodeAddMe(r1, r1.slotReqt).(slotReqt := 0) else r1
      else r
    case Map(sm) =>
      var r1 := r.(nodes := r.nodes[slot := r.nodes[slot].(slotMap := sm)]);
      if r1.slotIdx != 0 && src != r1.nodes[slot].addr && r1.role == Tag then
        r1.(nodes := r1.nodes[slot := r1.nodes[slot].(addr := src, accepted := r1.slotIdx !in sm)])
      else r1
    case Loca => r
    case Reqt(_) => r
  }

  ghost function AbsorbAll(r: Rti, slot: nat, f: Frame, i: nat): (r': Rti)
    requires r.Valid() && 1 <= slot <= BCN_SLOT_MAX && i <= |f.msgs|
    ensures r'.Valid()
    decreases |f.msgs| - i
  {
    if i == |f.msgs| then r
    else if f.msgs[i].Acpt? && f.dst != r.me then r
    else AbsorbAll(Absorb(r, slot, f.src, f.msgs[i]), slot, f, i + 1)
  }

  /** Somebody else's beacon slot; rx is None when the listen timed out. */
  ghost function BeaconOther(r: Rti, slot: nat, rx: Option<Rx>): (r': Rti)
    requires r.Valid() && 1 <= slot <= BCN_SLOT_MAX
    ensures r'.Valid()
  {
    if rx.None? then r
    else
      var o := Identify(r, slot, rx.value);
      if o.None? then r else AbsorbAll(MarkAlive(o.value, slot), slot, rx.value.frame, 0)
  }

  // --------------------------------------------------------------- service

  /** Slot k is free in the map of every known beacon node heard in this superframe. */
  ghost predicate Free(r: Rti, k: nat)
    requires r.Valid()
  {
    forall i :: Known(r, i) && r.nodes[i].available ==> k !in r.nodes[i].slotMap
  }

  /** The slots a node of this role may ask for: first and one past the last. */
  ghost function RangeLo(r: Rti): nat { if r.role == Anchor then 1 else SVC_SLOT + 1 }

  ghost function RangeHi(r: Rti): nat { if r.role == Anchor then BCN_SLOT_MAX + 1 else NSLOTS }

  /** The least free slot of the role's range from k on, 0 when there is none. */
  ghost function LeastFree(r: Rti, k: nat): (s: nat)
    requires r.Valid() && 1 <= k <= RangeHi(r)
    ensures s == 0 || (k <= s < RangeHi(r) && Free(r, s))
    ensures forall j :: k <= j < RangeHi(r) && (s == 0 || j < s) ==> !Free(r, j)
    decreases RangeHi(r) - k
  {
    if k == RangeHi(r) then 0 else if Free(r, k) then k else LeastFree(r, k + 1)
  }

  /** The service slot: listen for a request, or send one. */
  ghost function Service(r: Rti, rx: Option<Frame>, alloc: bool): (p: (Rti, Option<Frame>))
    requires r.Valid()
    requires rx.Some? ==> forall i :: 0 <= i < |rx.value.msgs| && rx.value.msgs[i].Reqt? ==> rx.value.msgs[i].reqt < NSLOTS
    ensures p.0.Valid()
  {
    if AllAccepted(r) then
      var r1 := if r.slotReqt != 0 && r.slotReqtCntr > SLOT_REQT_TIMEOUT then r.(slotReqt := 0) else r;
      if rx.Some? && r.role == Anchor && rx.value.dst == BROADCAST && |rx.value.msgs| > 0
         && r1.slotReqt == 0 && rx.value.msgs[0].Reqt? then
        (r1.(slotReqt := rx.value.msgs[0].reqt, slotReqtCntr := 0, slotReqtAddr := rx.value.src), None)
      else (r1, None)
    else if !alloc then (r, None)
    else
      var slot := LeastFree(r, RangeLo(r));
      var r1 := r.(seqno := (r.seqno + 1) % POW8, slotReqt := if slot != 0 then slot else r.slotReqt);
      (r1, if slot > 1 then Some(Frame(BROADCAST, r.me, [Reqt(slot)])) else None)
  }

  // -------------------------------------------------------- ranging, resets

  /** A ranging slot; heard is the source of a ranging frame received in it, if any. */
  ghost function Ranging(r: Rti, idx: nat, heard: Option<nat>): (r': Rti)
    requires r.Valid() && SVC_SLOT < idx < NSLOTS
    ensures r'.Valid()
  {
    if r.slotIdx == 0 then r
    else if idx == r.slotIdx || heard == Some(r.nodes[idx].addr) then
      r.(nodes := r.nodes[idx := r.nodes[idx].(timeout := 0)])
    else r
  }

  ghost function SyncReset(r: Rti, sync: Sync): (r': Rti)
    requires r.Valid()
    ensures r'.Valid()
  {
    var r1 := r.(slotIdx := 0, nodes := seq(NSLOTS, _ => CLEARED));
    if sync == Syed && r.master then NodeAddMe(r1, MASTER_SLOT) else r1
  }

  // ------------------------------------------------- the table updated in place

  class TdmaInstance {
    const role: Role
    const me: nat
    const nodes: array<Node>
    var master: bool
    var seqno: nat
    var slotIdx: nat
    var slotReqt: nat
    var slotReqtCntr: nat
    var slotReqtAddr: nat

    ghost function Abs(): Rti
      reads this, nodes
    {
      Rti(role, master, me, seqno, slotIdx, slotReqt, slotReqtCntr, slotReqtAddr, nodes[..])
    }

    ghost predicate Valid()
      reads this, nodes
    {
      Abs().Valid()
    }

    constructor (role: Role, me: nat)
      ensures Valid() && fresh(nodes)
      ensures Abs() == Rti(role, false, me, 0, 0, 0, 0, 0, seq(NSLOTS, _ => CLEARED))
    {
      this.role, this.me := role, me;
      nodes := new Node[NSLOTS](_ => CLEARED);
      master, seqno, slotIdx, slotReqt, slotReqtCntr, slotReqtAddr := false, 0, 0, 0, 0, 0;
    }

    method RemoveNode(idx: nat)
      requires Valid() && idx < NSLOTS
      modifies nodes
      ensures Valid() && Abs() == NodeRmv(old(Abs()), idx)
    {
      nodes[slotIdx] := nodes[slotIdx].(slotMap := nodes[slotIdx].slotMap - {idx});
      nodes[idx] := CLEARED;
    }

    method AddMe(idx: nat)
      requires Valid() && idx < NSLOTS
      modifies this, nodes
      ensures Valid() && Abs() == NodeAddMe(old(Abs()), idx)
    {
      slotIdx := idx;
      nodes[idx] := nodes[idx].(slotMap := nodes[0].slotMap + {idx});
      nodes[idx] := nodes[idx].(addr := me);
      nodes[idx] := nodes[idx].(accepted := true);
    }

    /** node_all_accepted: true for a master, false when no beacon node is known, else the verdict of all of them. */
    method IsAllAccepted() returns (accepted: bool)
      requires Valid()
      ensures accepted == AllAccepted(Abs())
    {
      if master { return true; }
      accepted := true;
      var cnt, i := 0, 1;
      while i <= BCN_SLOT_MAX && accepted
        invariant 1 <= i <= BCN_SLOT_MAX + 1
        invariant accepted ==> forall j :: Known(Abs(), j) && j < i ==> nodes[j].accepted
        invariant !accepted ==> exists j :: Known(Abs(), j) && !nodes[j].accepted
        invariant cnt != 0 <==> exists j :: Known(Abs(), j) && j < i
        decreases BCN_SLOT_MAX - i, accepted
      {
        if nodes[i].addr != 0 {
          assert Known(Abs(), i);
          cnt := cnt + 1;
          if !nodes[i].accepted {
            accepted := false;
          }
        }
        i := i + 1;
      }
      accepted := cnt != 0 && accepted;
    }

    /** One round of the loop of superframe_cb. */
    method TickRow(i: nat)
      requires Valid() && 1 <= i < NSLOTS
      modifies this, nodes
      ensures Valid() && Abs() == TickNode(old(Abs()), i)
    {
      nodes[i] := nodes[i].(available := false);
      nodes[i] := nodes[i].(timeout := (nodes[i].timeout + 1) % POW8);
      assert nodes[..] == old(nodes[..])[i := nodes[i]];
      if nodes[i].timeout > ANCHOR_TIMEOUT {
        RemoveNode(i);
        var all := IsAllAccepted();
        if slotReqt != 0 && all && role == Tag {
          AddMe(slotReqt);
        }
      }
    }

    method SuperframeCb()
      requires Valid()
      modifies this, nodes
      ensures Valid() && Abs() == Superframe(old(Abs()))
    {
      var i := 1;
      while i < NSLOTS
        invariant 1 <= i <= NSLOTS && Valid()
        invariant TickFrom(Abs(), i) == TickFrom(old(Abs()), 1)
      {
        TickRow(i);
        i := i + 1;
      }
      if slotReqt != 0 {
        slotReqtCntr := (slotReqtCntr + 1) % POW16;
      }
    }

    method BeaconMineCb(alloc: bool) returns (tx: Option<Frame>)
      requires Valid()
      modifies this, nodes
      ensures Valid() && (Abs(), tx) == BeaconMine(old(Abs()), alloc)
    {
      tx := None;
      nodes[slotIdx] := nodes[slotIdx].(available := true);
      nodes[slotIdx] := nodes[slotIdx].(timeout := 0);
      assert nodes[..] == old(nodes[..])[slotIdx := nodes[slotIdx]];
      if !alloc { return; }
      if slotReqt != 0 {
        var acpt := if slotReqt !in nodes[slotIdx].slotMap then slotReqt else 0;
        if acpt == 0 {
          slotReqt := 0;
        }
        tx := Some(Frame(slotReqtAddr, me, [Acpt(acpt), Map(nodes[slotIdx].slotMap)]));
      } else if seqno % 2 == 1 {
        tx := Some(Frame(BROADCAST, me, [Loca]));
      } else {
        tx := Some(Frame(BROADCAST, me, [Map(nodes[slotIdx].slotMap)]));
      }
      seqno := (seqno + 1) % POW8;
      if slotReqt != 0 && slotReqt > SVC_SLOT {
        nodes[slotIdx] := nodes[slotIdx].(slotMap := nodes[slotIdx].slotMap + {slotReqt});
        nodes[slotReqt] := nodes[slotReqt].(addr := slotReqtAddr);
        slotReqt := 0;
      }
    }

    /** The bookkeeping for a sender that is not the recorded one; false when its frame is ignored. */
    method NoteSender(slot: nat, rx: Rx) returns (heard: bool)
      requires Valid() && 1 <= slot <= BCN_SLOT_MAX
      modifies this, nodes
      ensures heard <==> Identify(old(Abs()), slot, rx).Some?
      ensures Valid() && Abs() == if heard then Identify(old(Abs()), slot, rx).value else old(Abs())
    {
      var src := rx.frame.src;
      if src != nodes[slot].addr {
        if slotIdx != 0 {
          if slotReqt != 0 && slotReqtAddr == src {
            slotReqt := 0;
            nodes[slot] := nodes[slot].(addr := src, accepted := true);
          } else if role == Anchor && rx.rssi > -95.0 {
            nodes[slot] := nodes[slot].(addr := src, accepted := true);
          }
        } else {
          if rx.rssi < -95.0 { return false; }
          nodes[slot] := nodes[slot].(addr := src);
        }
      }
      return true;
    }

    /** One round of the message loop of bcn_slot_cb_othr. */
    method AbsorbMsg(slot: nat, src: nat, m: Msg)
      requires Valid() && 1 <= slot <= BCN_SLOT_MAX
      modifies this, nodes
      ensures Valid() && Abs() == Absorb(old(Abs()), slot, src, m)
    {
      match m {
        case Acpt(s) =>
          if s == slotReqt {
            nodes[slot] := nodes[slot].(accepted := true);
            assert nodes[..] == old(nodes[..])[slot := nodes[slot]];
            var all := IsAllAccepted();
            if all {
              AddMe(slotReqt);
              slotReqt := 0;
            }
          }
        case Map(sm) =>
          nodes[slot] := nodes[slot].(slotMap := sm);
          if slotIdx != 0 && src != nodes[slot].addr && role == Tag {
            nodes[slot] := nodes[slot].(addr := src);
            nodes[slot] := nodes[slot].(accepted := slotIdx !in sm);
          }
        case Loca =>
        case Reqt(_) =>
      }
    }

    method BeaconOtherCb(slot: nat, rx: Option<Rx>)
      requires Valid() && 1 <= slot <= BCN_SLOT_MAX
      modifies this, nodes
      ensures Valid() && Abs() == BeaconOther(old(Abs()), slot, rx)
    {
      if rx.None? { return; }
      var frame := rx.value.frame;
      var heard := NoteSender(slot, rx.value);
      if !heard { return; }
      ghost var known := Abs();
      nodes[slot] := nodes[slot].(available := true, timeout := 0);
      nodes[slotIdx] := nodes[slotIdx].(slotMap := nodes[slotIdx].slotMap + {slot});
      assert Abs() == MarkAlive(known, slot);
      var i := 0;
      while i < |frame.msgs|
        invariant 0 <= i <= |frame.msgs| && Valid()
        invariant AbsorbAll(Abs(), slot, frame, i) == BeaconOther(old(Abs()), slot, rx)
      {
        if frame.msgs[i].Acpt? && frame.dst != me { return; }
        AbsorbMsg(slot, frame.src, frame.msgs[i]);
        i := i + 1;
      }
    }

    /** The two bitmask loops of svc_slot_cb: intersect the complements of the maps, take the least bit of the range. */
    method FindSlot() returns (slot: nat)
      requires Valid()
      ensures slot == LeastFree(Abs(), RangeLo(Abs()))
      ensures slot != 0 ==> Free(Abs(), slot)
    {
      var bits: seq<nat> := seq(64, i => i);
      var slotMap := set k | k in bits;
      assert forall k :: 0 <= k < 64 ==> k in slotMap by {
        forall k | 0 <= k < 64 ensures k in slotMap { assert bits[k] == k; }
      }
      var i := 1;
      while i <= BCN_SLOT_MAX
        invariant 1 <= i <= BCN_SLOT_MAX + 1
        invariant forall k :: 0 <= k < 64 ==>
          (k in slotMap <==> forall j :: Known(Abs(), j) && j < i && nodes[j].available ==> k !in nodes[j].slotMap)
      {
        if nodes[i].addr != 0 && nodes[i].available {
          assert Known(Abs(), i);
          slotMap := slotMap - nodes[i].slotMap;
        }
        i := i + 1;
      }
      assert forall k :: 0 <= k < 64 ==> (k in slotMap <==> Free(Abs(), k));
      var lo := if role == Anchor then 1 else SVC_SLOT + 1;
      var hi := if role == Anchor then BCN_SLOT_MAX + 1 else NSLOTS;
      i := lo;
      while i < hi
        invariant lo <= i <= hi
        invariant LeastFree(Abs(), lo) == LeastFree(Abs(), i)
      {
        if i in slotMap { return i; }
        i := i + 1;
      }
      slot := 0;
    }

    method ServiceCb(rx: Option<Frame>, alloc: bool) returns (tx: Option<Frame>)
      requires Valid()
      requires rx.Some? ==> forall i :: 0 <= i < |rx.value.msgs| && rx.value.msgs[i].Reqt? ==> rx.value.msgs[i].reqt < NSLOTS
      modifies this, nodes
      ensures Valid() && (Abs(), tx) == Service(old(Abs()), rx, alloc)
    {
      tx := None;
      var all := IsAllAccepted();
      if all {
        if slotReqt != 0 && slotReqtCntr > SLOT_REQT_TIMEOUT {
          slotReqt := 0;
        }
        if rx.Some? && role == Anchor {
          if rx.value.dst != BROADCAST { return; }
          if |rx.value.msgs| == 0 { return; }
          if slotReqt == 0 && rx.value.msgs[0].Reqt? {
            slotReqt := rx.value.msgs[0].reqt;
            slotReqtCntr := 0;
            slotReqtAddr := rx.value.src;
          }
        }
      } else {
        if !alloc { return; }
        var slot := FindSlot();
        seqno := (seqno + 1) % POW8;
        if slot != 0 {
          slotReqt := slot;
        }
        if slot > 1 {
          tx := Some(Frame(BROADCAST, me, [Reqt(slot)]));
        }
      }
    }

    method RangingCb(idx: nat, heard: Option<nat>)
      requires Valid() && SVC_SLOT < idx < NSLOTS
      modifies nodes
      ensures Valid() && Abs() == Ranging(old(Abs()), idx, heard)
    {
      if slotIdx != 0 {
        if idx == slotIdx {
          nodes[slotIdx] := nodes[slotIdx].(timeout := 0);
        }
        if heard.Some? && heard.value == nodes[idx].addr {
          nodes[idx] := nodes[idx].(timeout := 0);
        }
      }
    }

    method SyncCb(sync: Sync)
      requires Valid()
      modifies this, nodes
      ensures Valid() && Abs() == SyncReset(old(Abs()), sync)
    {
      slotIdx := 0;
      nodes[slotIdx] := nodes[slotIdx].(slotMap := {0});
      var i := 0;
      while i < NSLOTS
        modifies nodes
        invariant 0 <= i <= NSLOTS
        invariant forall j :: 0 <= j < i ==> nodes[j] == CLEARED
      {
        nodes[i] := CLEARED;
        i := i + 1;
      }
      assert nodes[..] == seq(NSLOTS, _ => CLEARED);
      if sync == Syed && master {
        AddMe(MASTER_SLOT);
      }
    }
  }
}
