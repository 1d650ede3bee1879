/**
 * One anchor, any number of tags and a lossy radio, all running the code of
 * module Tdma. A step is one callback, or one transmission together with the
 * callbacks of the nodes that happen to hear it; steps come in any order, which
 * includes the order of a superframe.
 */
module TdmaSystem {
  import opened Prelude
  import opened Tdma

  /** A slot taken over from an ACPT, and how often its bit had been cleared at the anchor by then. */
  datatype Grant = Grant(slot: nat, clears: nat)

  /**
   * clears[k] counts how often bit k went from one to zero in the anchor's own map;
   * held[t] is the last grant tag t acted on. Both only observe the run.
   */
  datatype Sys = Sys(anchor: Rti, tags: map<nat, Rti>, clears: seq<nat>, held: map<nat, Grant>)

  datatype Event =
    | AnchorTick
    | AnchorBeacon(alloc: bool, heard: map<nat, real>)
    | AnchorService
    | AnchorReset(sync: Sync)
    | TagTick(tag: nat)
    | TagService(tag: nat, alloc: bool, delivered: bool)
    | TagRanging(tag: nat, delivered: bool)
    | TagReset(tag: nat, sync: Sync)

  ghost function Fresh(role: Role, master: bool, me: nat): Rti {
    Rti(role, master, me, 0, 0, 0, 0, 0, seq(NSLOTS, _ => CLEARED))
  }

  ghost predicate Init(s: Sys) {
    && s.anchor == Fresh(Anchor, true, s.anchor.me)
    && s.anchor.me != 0
    && (forall t :: t in s.tags ==> t != 0 && t != s.anchor.me && s.tags[t] == Fresh(Tag, false, t))
    && s.clears == seq(NSLOTS, _ => 0)
    && s.held == map[]
  }

  ghost predicate WellTyped(s: Sys) {
    && s.anchor.Valid()
    && (forall t :: t in s.tags ==> s.tags[t].Valid())
    && |s.clears| == NSLOTS
  }

  /** The row of the anchor in a tag's table will survive the next superframe. */
  ghost predicate KeepsAnchor(r: Rti)
    requires r.Valid()
  {
    r.nodes[MASTER_SLOT].addr != 0 ==> r.nodes[MASTER_SLOT].timeout < ANCHOR_TIMEOUT
  }

  /** When an event can happen; strict runs are those in which no tag times the anchor out. */
  ghost predicate Enabled(s: Sys, e: Event, strict: bool)
    requires WellTyped(s)
  {
    match e
    case AnchorTick => true
    case AnchorBeacon(_, heard) => s.anchor.slotIdx == MASTER_SLOT && heard.Keys <= s.tags.Keys
    case AnchorService => true
    case AnchorReset(_) => true
    case TagTick(t) => t in s.tags && (strict ==> KeepsAnchor(s.tags[t]))
    case TagService(t, _, _) => t in s.tags
    case TagRanging(t, _) => t in s.tags && SVC_SLOT < s.tags[t].slotIdx
    case TagReset(t, _) => t in s.tags
  }

  /** Count the bits that the step from a to b clears in the anchor's own map. */
  ghost function Count(clears: seq<nat>, a: Rti, b: Rti): (c: seq<nat>)
    requires |clears| == NSLOTS && a.Valid() && b.Valid()
    ensures |c| == NSLOTS
    ensures forall k :: 0 <= k < NSLOTS ==>
      c[k] == clears[k] + if k in a.OwnMap() && k !in b.OwnMap() then 1 else 0
  {
    seq(NSLOTS, k requires 0 <= k < NSLOTS => clears[k] + if k in a.OwnMap() && k !in b.OwnMap() then 1 else 0)
  }

  ghost function WithAnchor(s: Sys, a: Rti): (s': Sys)
    requires WellTyped(s) && a.Valid()
    ensures WellTyped(s')
  {
    s.(anchor := a, clears := Count(s.clears, s.anchor, a))
  }

  ghost function WithTag(s: Sys, t: nat, r: Rti): (s': Sys)
    requires WellTyped(s) && r.Valid()
    ensures WellTyped(s')
  {
    s.(tags := s.tags[t := r])
  }

  /** The tags after the anchor's beacon f. */
  ghost function Hear(tags: map<nat, Rti>, f: Frame, heard: map<nat, real>): (tags': map<nat, Rti>)
    requires forall t :: t in tags ==> tags[t].Valid()
    ensures tags'.Keys == tags.Keys
    ensures forall t :: t in tags' ==> tags'[t].Valid()
  {
    map t | t in tags ::
      if t in heard then BeaconOther(tags[t], MASTER_SLOT, Some(Rx(f, heard[t]))) else tags[t]
  }

  /** The tag that f makes adopt a slot, if any: it had asked for the slot that f concedes, and asks no more. */
  ghost predicate Adopts(tags: map<nat, Rti>, f: Frame, heard: map<nat, real>, t: nat)
    requires forall t :: t in tags ==> tags[t].Valid()
  {
    && t in tags && t in heard && f.dst == t
    && |f.msgs| > 0 && f.msgs[0].Acpt? && f.msgs[0].slotReqt != 0
    && f.msgs[0].slotReqt == tags[t].slotReqt
    && Hear(tags, f, heard)[t].slotIdx == f.msgs[0].slotReqt && Hear(tags, f, heard)[t].slotReqt == 0
  }

  /** The anchor is in state a after its beacon slot, in which it sent tx. */
  ghost function AfterBeacon(s: Sys, a: Rti, tx: Option<Frame>, heard: map<nat, real>): (s': Sys)
    requires WellTyped(s) && a.Valid()
    ensures WellTyped(s')
  {
    var s1 := WithAnchor(s, a);
    if tx.None? then s1
    else
      var f := tx.value;
      var s2 := s1.(tags := Hear(s.tags, f, heard));
      if Adopts(s.tags, f, heard, f.dst) && f.msgs[0].slotReqt < NSLOTS then
        s2.(held := s.held[f.dst := Grant(f.msgs[0].slotReqt, s2.clears[f.msgs[0].slotReqt])])
      else s2
  }

  ghost function Next(s: Sys, e: Event, strict: bool): (s': Sys)
    requires WellTyped(s) && Enabled(s, e, strict)
    ensures WellTyped(s')
  {
    match e
    case AnchorTick => WithAnchor(s, Superframe(s.anchor))
    case AnchorBeacon(alloc, heard) =>
      var (a, tx) := BeaconMine(s.anchor, alloc);
      AfterBeacon(s, a, tx, heard)
    case AnchorService => WithAnchor(s, Service(s.anchor, None, true).0)
    case AnchorReset(sync) => WithAnchor(s, SyncReset(s.anchor, sync))
    case TagTick(t) => WithTag(s, t, Superframe(s.tags[t]))
    case TagService(t, alloc, delivered) =>
      var (r, tx) := Service(s.tags[t], None, alloc);
      var s1 := WithTag(s, t, r);
      if delivered && tx.Some? then WithAnchor(s1, Service(s.anchor, tx, true).0) else s1
    case TagRanging(t, delivered) =>
      var k := s.tags[t].slotIdx;
      var s1 := WithTag(s, t, Ranging(s.tags[t], k, None));
      WithAnchor(s1, Ranging(s.anchor, k, if delivered then Some(t) else None))
    case TagReset(t, sync) => WithTag(s, t, SyncReset(s.tags[t], sync))
  }

  ghost predicate CanRun(s: Sys, es: seq<Event>, strict: bool)
    requires WellTyped(s)
    decreases |es|
  {
    es == [] || (Enabled(s, es[0], strict) && CanRun(Next(s, es[0], strict), es[1..], strict))
  }

  ghost function Run(s: Sys, es: seq<Event>, strict: bool): (s': Sys)
    requires WellTyped(s) && CanRun(s, es, strict)
    ensures WellTyped(s')
    decreases |es|
  {
    if es == [] then s else Run(Next(s, es[0], strict), es[1..], strict)
  }

  // ------------------------------------------------------------- invariant

  ghost predicate AnchorOk(a: Rti) {
    && a.Valid() && a.role == Anchor && a.master && a.me != 0
    && (a.slotIdx == 0 || a.slotIdx == MASTER_SLOT)
    && (a.slotReqt == 0 || SVC_SLOT < a.slotReqt)
  }

  ghost predicate TagOk(r: Rti, anchor: nat) {
    && r.Valid() && r.role == Tag && !r.master
    && (forall j :: 2 <= j <= BCN_SLOT_MAX ==> r.nodes[j].addr == 0)
    && (r.nodes[MASTER_SLOT].addr == 0 || r.nodes[MASTER_SLOT].addr == anchor)
    && (r.slotReqt == 0 || SVC_SLOT < r.slotReqt)
    && (r.nodes[MASTER_SLOT].accepted <==> r.slotIdx != 0)
    && (r.slotIdx != 0 ==> SVC_SLOT < r.slotIdx && r.slotReqt == 0 && r.nodes[MASTER_SLOT].addr == anchor)
  }

  /** Tag t holds its slot on a grant that the anchor has not revoked since. */
  ghost predicate HoldsCurrent(s: Sys, t: nat)
    requires WellTyped(s)
  {
    && t in s.tags && t in s.held
    && s.tags[t].slotIdx != 0
    && s.held[t] == Grant(s.tags[t].slotIdx, s.clears[s.tags[t].slotIdx])
  }

  /** The anchor's table lists t as the node of slot k. */
  ghost predicate Recorded(s: Sys, t: nat, k: nat)
    requires WellTyped(s) && k < NSLOTS
  {
    s.anchor.slotIdx == MASTER_SLOT && k in s.anchor.OwnMap() && s.anchor.nodes[k].addr == t
  }

  ghost predicate HeldOk(s: Sys, t: nat)
    requires WellTyped(s) && t in s.tags
  {
    s.tags[t].slotIdx != 0 ==>
      && t in s.held && s.held[t].slot == s.tags[t].slotIdx
      && s.held[t].clears <= s.clears[s.tags[t].slotIdx]
      && (HoldsCurrent(s, t) ==> Recorded(s, t, s.tags[t].slotIdx))
  }

  ghost predicate Inv(s: Sys) {
    && WellTyped(s)
    && AnchorOk(s.anchor)
    && (forall t :: t in s.tags ==> t != s.anchor.me && s.tags[t].me == t && TagOk(s.tags[t], s.anchor.me) && HeldOk(s, t))
    && (s.anchor.slotReqt != 0 ==> s.anchor.slotReqtAddr in s.tags && s.tags[s.anchor.slotReqtAddr].slotReqt != 0)
  }

  lemma TagAccepted(r: Rti, anchor: nat)
    requires TagOk(r, anchor) && anchor != 0
    ensures AllAccepted(r) <==> r.slotIdx != 0
  {
    if r.slotIdx != 0 {
      assert Known(r, MASTER_SLOT);
    }
  }

  // --------------------------------------------------- what each callback keeps

  lemma TagTickNodeKeeps(r: Rti, i: nat, anchor: nat)
    requires TagOk(r, anchor) && anchor != 0 && 1 <= i < NSLOTS
    requires i == MASTER_SLOT ==> KeepsAnchor(r)
    ensures var r' := TickNode(r, i);
      TagOk(r', anchor) && r'.slotIdx == r.slotIdx && r'.slotReqt == r.slotReqt && r'.me == r.me
  {
    var t := (r.nodes[i].timeout + 1) % POW8;
    var r1 := r.(nodes := r.nodes[i := r.nodes[i].(available := false, timeout := t)]);
    if t > ANCHOR_TIMEOUT {
      var r2 := NodeRmv(r1, i);
      assert TagOk(r2, anchor);
      TagAccepted(r2, anchor);
    }
  }

  lemma {:induction false} TagTickKeeps(r: Rti, i: nat, anchor: nat)
    requires TagOk(r, anchor) && anchor != 0 && 1 <= i <= NSLOTS
    requires i == MASTER_SLOT ==> KeepsAnchor(r)
    ensures var r' := TickFrom(r, i);
      TagOk(r', anchor) && r'.slotIdx == r.slotIdx && r'.slotReqt == r.slotReqt && r'.me == r.me
    decreases NSLOTS - i
  {
    if i < NSLOTS {
      TagTickNodeKeeps(r, i, anchor);
      TagTickKeeps(TickNode(r, i), i + 1, anchor);
    }
  }

  /** Between a and b the anchor revokes slots but neither grants nor reassigns any. */
  ghost predicate OnlyRevokes(a: Rti, b: Rti) {
    && AnchorOk(a) && AnchorOk(b)
    && b.slotReqt == a.slotReqt && b.slotReqtAddr == a.slotReqtAddr && b.me == a.me
    && forall k :: SVC_SLOT < k < NSLOTS && k in b.OwnMap() ==>
         k in a.OwnMap() && b.nodes[k].addr == a.nodes[k].addr && b.slotIdx == a.slotIdx
  }

  lemma {:induction false} AnchorTickRevokes(a: Rti, i: nat)
    requires AnchorOk(a) && 1 <= i <= NSLOTS
    ensures OnlyRevokes(a, TickFrom(a, i))
    decreases NSLOTS - i
  {
    if i < NSLOTS {
      var b := TickNode(a, i);
      assert OnlyRevokes(a, b);
      AnchorTickRevokes(b, i + 1);
    }
  }

  /**
   * What the anchor's beacon tx, leading from a to b, may change: a slot it concedes was free,
   * lies above the service slot, and is entered for the addressee; the other slots stay.
   */
  ghost predicate Grants(a: Rti, b: Rti, tx: Option<Frame>) {
    && AnchorOk(a) && AnchorOk(b) && b.slotIdx == a.slotIdx == MASTER_SLOT && b.me == a.me
    && (tx.None? ==> b.slotReqt == a.slotReqt && b.slotReqtAddr == a.slotReqtAddr)
    && (tx.Some? ==>
          && b.slotReqt == 0 && tx.value.src == a.me && |tx.value.msgs| > 0
          && (forall i :: 1 <= i < |tx.value.msgs| ==> tx.value.msgs[i].Map?))
    && (tx.Some? && tx.value.msgs[0].Acpt? ==>
          && a.slotReqt != 0 && tx.value.dst == a.slotReqtAddr
          && (tx.value.msgs[0].slotReqt == 0 || tx.value.msgs[0].slotReqt == a.slotReqt))
    && (forall k :: SVC_SLOT < k < NSLOTS ==>
          if tx.Some? && tx.value.msgs[0] == Acpt(k)
          then k !in a.OwnMap() && k in b.OwnMap() && b.nodes[k].addr == tx.value.dst
          else (k in b.OwnMap() <==> k in a.OwnMap()) && b.nodes[k].addr == a.nodes[k].addr)
  }

  lemma BeaconGrants(a: Rti, alloc: bool)
    requires AnchorOk(a) && a.slotIdx == MASTER_SLOT
    ensures Grants(a, BeaconMine(a, alloc).0, BeaconMine(a, alloc).1)
  {
  }

  /**
   * A tag that hears the beacon adopts the slot conceded to its own request, provided it knows the
   * anchor or hears it loud enough; in every other case it keeps slot and request.
   */
  lemma TagHears(r: Rti, anchor: nat, f: Frame, rssi: real)
    requires TagOk(r, anchor) && anchor != 0 && f.src == anchor && |f.msgs| > 0
    requires forall i :: 1 <= i < |f.msgs| ==> f.msgs[i].Map?
    requires f.msgs[0].Acpt? && f.dst == r.me ==> r.slotReqt != 0
    ensures var r' := BeaconOther(r, MASTER_SLOT, Some(Rx(f, rssi)));
      && TagOk(r', anchor) && r'.me == r.me
      && (if r'.slotIdx == r.slotIdx then r'.slotReqt == r.slotReqt
          else r'.slotIdx == r.slotReqt && r'.slotReqt == 0)
      && (r'.slotIdx != r.slotIdx <==>
            && f.msgs[0] == Acpt(r.slotReqt) && f.dst == r.me && r.slotReqt != 0
            && (r.nodes[MASTER_SLOT].addr == anchor || rssi >= -95.0))
  {
    var o := Identify(r, MASTER_SLOT, Rx(f, rssi));
    if o.Some? {
      var r1 := MarkAlive(o.value, MASTER_SLOT);
      assert TagOk(r1, anchor) && r1.nodes[MASTER_SLOT].addr == anchor;
      if !(f.msgs[0].Acpt? && f.dst != r.me) {
        var r2 := Absorb(r1, MASTER_SLOT, f.src, f.msgs[0]);
        assert TagOk(r2, anchor) && r2.nodes[MASTER_SLOT].addr == anchor by {
          if f.msgs[0] == Acpt(r1.slotReqt) {
            var r3 := r1.(nodes := r1.nodes[MASTER_SLOT := r1.nodes[MASTER_SLOT].(accepted := true)]);
            assert Known(r3, MASTER_SLOT) && AllAccepted(r3);
          }
        }
        TagAbsorbsMaps(r2, anchor, f, 1);
      }
    }
  }

  lemma {:induction false} TagAbsorbsMaps(r: Rti, anchor: nat, f: Frame, i: nat)
    requires TagOk(r, anchor) && r.nodes[MASTER_SLOT].addr == anchor == f.src
    requires 1 <= i <= |f.msgs| && forall i :: 1 <= i < |f.msgs| ==> f.msgs[i].Map?
    ensures var r' := AbsorbAll(r, MASTER_SLOT, f, i);
      TagOk(r', anchor) && r'.slotIdx == r.slotIdx && r'.slotReqt == r.slotReqt && r'.me == r.me
    decreases |f.msgs| - i
  {
    if i < |f.msgs| {
      TagAbsorbsMaps(Absorb(r, MASTER_SLOT, f.src, f.msgs[i]), anchor, f, i + 1);
    }
  }

  /** A tag's service slot: it asks for the least free ranging slot, or has nothing to ask for. */
  lemma TagServes(r: Rti, anchor: nat, alloc: bool)
    requires TagOk(r, anchor) && anchor != 0
    ensures var (r', tx) := Service(r, None, alloc);
      && TagOk(r', anchor) && r'.slotIdx == r.slotIdx && r'.me == r.me
      && (r.slotReqt != 0 ==> r'.slotReqt != 0)
      && (tx.Some? ==> r'.slotReqt != 0 && tx.value == Frame(BROADCAST, r.me, [Reqt(r'.slotReqt)]))
  {
    TagAccepted(r, anchor);
  }

  lemma AnchorServes(a: Rti, rx: Option<Frame>)
    requires AnchorOk(a)
    requires rx.Some? ==> exists k :: SVC_SLOT < k < NSLOTS && rx.value.msgs == [Reqt(k)]
    ensures var b := Service(a, rx, true).0;
      && AnchorOk(b) && b.me == a.me && b.nodes == a.nodes && b.slotIdx == a.slotIdx
      && (b.slotReqt != 0 ==> (b.slotReqtAddr == a.slotReqtAddr && a.slotReqt != 0) || (rx.Some? && b.slotReqtAddr == rx.value.src))
  {
  }

  // --------------------------------------------------------- one step, all runs

  lemma AnchorStepKeeps(s: Sys, a: Rti)
    requires Inv(s) && OnlyRevokes(s.anchor, a)
    ensures Inv(WithAnchor(s, a))
  {
  }

  lemma TagStepKeeps(s: Sys, t: nat, r: Rti)
    requires Inv(s) && t in s.tags && TagOk(r, s.anchor.me) && r.me == t
    requires r.slotIdx == 0 || r.slotIdx == s.tags[t].slotIdx
    requires s.tags[t].slotReqt != 0 ==> r.slotReqt != 0
    ensures Inv(WithTag(s, t, r))
  {
    var s' := WithTag(s, t, r);
    forall u | u in s'.tags ensures HeldOk(s', u) {
      assert HeldOk(s, u);
    }
  }

  /** One tag across a beacon, from what the anchor and the tag each guarantee. */
  lemma HeldAcrossBeacon(s: Sys, a: Rti, tx: Option<Frame>, t: nat, s': Sys)
    requires Inv(s) && Grants(s.anchor, a, tx) && t in s.tags
    requires WellTyped(s') && s'.anchor == a && s'.clears == Count(s.clears, s.anchor, a) && t in s'.tags
    requires TagOk(s'.tags[t], s.anchor.me)
    requires if s'.tags[t].slotIdx == s.tags[t].slotIdx
      then t in s.held && s.tags[t].slotIdx != 0 ==> t in s'.held && s'.held[t] == s.held[t]
      else && tx.Some? && tx.value.msgs[0] == Acpt(s'.tags[t].slotIdx) && tx.value.dst == t
           && t in s'.held && s'.held[t] == Grant(s'.tags[t].slotIdx, s'.clears[s'.tags[t].slotIdx])
    ensures HeldOk(s', t)
  {
    assert HeldOk(s, t);
  }

  /** One tag's table after the anchor's beacon. */
  lemma TableAfter(s: Sys, a: Rti, tx: Option<Frame>, heard: map<nat, real>, t: nat)
    requires WellTyped(s) && a.Valid() && t in s.tags
    ensures var s' := AfterBeacon(s, a, tx, heard);
      && t in s'.tags
      && (tx.Some? && t in heard ==> s'.tags[t] == BeaconOther(s.tags[t], MASTER_SLOT, Some(Rx(tx.value, heard[t]))))
      && (tx.None? || t !in heard ==> s'.tags[t] == s.tags[t])
  {
    hide BeaconOther, Adopts, Count;
  }

  /** The grant on record of a tag that does not adopt, and of one that does. */
  lemma HeldAfter(s: Sys, a: Rti, tx: Option<Frame>, heard: map<nat, real>, t: nat)
    requires WellTyped(s) && a.Valid() && t in s.tags
    ensures var s' := AfterBeacon(s, a, tx, heard);
      && (tx.None? || t !in heard || tx.value.dst != t ==> (t in s'.held <==> t in s.held) && (t in s.held ==> s'.held[t] == s.held[t]))
      && (tx.Some? && Adopts(s.tags, tx.value, heard, t) && tx.value.msgs[0].slotReqt < NSLOTS ==>
            t in s'.held && s'.held[t] == Grant(tx.value.msgs[0].slotReqt, s'.clears[tx.value.msgs[0].slotReqt]))
      && (tx.Some? && !Adopts(s.tags, tx.value, heard, t) ==>
            (t in s'.held <==> t in s.held) && (t in s.held ==> s'.held[t] == s.held[t]))
  {
    hide Hear, Count;
  }

  /** A tag of a strict run that hears the beacon adopts exactly if its slot changes. */
  lemma AdoptsIff(s: Sys, f: Frame, heard: map<nat, real>, t: nat, r': Rti)
    requires WellTyped(s) && t in s.tags && t in heard
    requires r' == BeaconOther(s.tags[t], MASTER_SLOT, Some(Rx(f, heard[t])))
    requires r'.slotIdx == s.tags[t].slotIdx ==> r'.slotReqt == s.tags[t].slotReqt
    requires r'.slotIdx != s.tags[t].slotIdx ==>
      f.dst == t && |f.msgs| > 0 && f.msgs[0] == Acpt(r'.slotIdx) && r'.slotIdx == s.tags[t].slotReqt != 0 && r'.slotReqt == 0
    ensures Adopts(s.tags, f, heard, t) <==> r'.slotIdx != s.tags[t].slotIdx
  {
    hide BeaconOther;
    assert Hear(s.tags, f, heard)[t] == r';
  }

  lemma BeaconKeepsTag(s: Sys, a: Rti, tx: Option<Frame>, heard: map<nat, real>, t: nat)
    requires Inv(s) && Grants(s.anchor, a, tx) && t in s.tags
    ensures var s' := AfterBeacon(s, a, tx, heard);
      && s'.tags[t].me == t && TagOk(s'.tags[t], s.anchor.me) && HeldOk(s', t)
      && (tx.None? ==> s'.tags == s.tags)
  {
    TableAfter(s, a, tx, heard, t);
    HeldAfter(s, a, tx, heard, t);
    hide BeaconOther, Adopts, Hear;
    if tx.Some? && t in heard {
      TagHears(s.tags[t], s.anchor.me, tx.value, heard[t]);
      AdoptsIff(s, tx.value, heard, t, BeaconOther(s.tags[t], MASTER_SLOT, Some(Rx(tx.value, heard[t]))));
    }
    HeldAcrossBeacon(s, a, tx, t, AfterBeacon(s, a, tx, heard));
  }

  lemma BeaconKeeps(s: Sys, a: Rti, tx: Option<Frame>, heard: map<nat, real>)
    requires Inv(s) && Grants(s.anchor, a, tx)
    ensures Inv(AfterBeacon(s, a, tx, heard))
  {
    forall t | t in s.tags
      ensures var s' := AfterBeacon(s, a, tx, heard);
        s'.tags[t].me == t && TagOk(s'.tags[t], s.anchor.me) && HeldOk(s', t) && (tx.None? ==> s'.tags == s.tags)
    {
      BeaconKeepsTag(s, a, tx, heard, t);
    }
  }

  /** The anchor's service slot, in which it may have received a request from tag t. */
  lemma AnchorServiceKeeps(s: Sys, a: Rti, t: nat)
    requires Inv(s) && AnchorOk(a) && a.me == s.anchor.me && a.nodes == s.anchor.nodes && a.slotIdx == s.anchor.slotIdx
    requires a.slotReqt != 0 ==>
      (a.slotReqtAddr == s.anchor.slotReqtAddr && s.anchor.slotReqt != 0) || (a.slotReqtAddr == t && t in s.tags && s.tags[t].slotReqt != 0)
    ensures Inv(WithAnchor(s, a))
  {
    var s' := WithAnchor(s, a);
    forall u | u in s'.tags ensures HeldOk(s', u) {
      assert HeldOk(s, u);
    }
  }

  lemma ServiceKeeps(s: Sys, t: nat, alloc: bool, delivered: bool)
    requires Inv(s) && t in s.tags
    ensures Inv(Next(s, TagService(t, alloc, delivered), true))
  {
    var (r, tx) := Service(s.tags[t], None, alloc);
    TagServes(s.tags[t], s.anchor.me, alloc);
    TagStepKeeps(s, t, r);
    if delivered && tx.Some? {
      AnchorServes(s.anchor, tx);
      AnchorServiceKeeps(WithTag(s, t, r), Service(s.anchor, tx, true).0, t);
    }
  }

  lemma RangingKeeps(s: Sys, t: nat, delivered: bool)
    requires Inv(s) && t in s.tags && SVC_SLOT < s.tags[t].slotIdx
    ensures Inv(Next(s, TagRanging(t, delivered), true))
  {
    var k := s.tags[t].slotIdx;
    var r := Ranging(s.tags[t], k, None);
    TagStepKeeps(s, t, r);
    AnchorStepKeeps(WithTag(s, t, r), Ranging(s.anchor, k, if delivered then Some(t) else None));
  }

  lemma AnchorTickKeeps(s: Sys)
    requires Inv(s)
    ensures Inv(Next(s, AnchorTick, true))
  {
    AnchorTickRevokes(s.anchor, 1);
    assert OnlyRevokes(s.anchor, Superframe(s.anchor));
    hide Superframe, Inv, OnlyRevokes;
    AnchorStepKeeps(s, Superframe(s.anchor));
  }

  lemma AnchorListens(s: Sys)
    requires Inv(s)
    ensures Inv(Next(s, AnchorService, true))
  {
    AnchorServes(s.anchor, None);
    hide Service;
    AnchorServiceKeeps(s, Service(s.anchor, None, true).0, 0);
    hide Inv;
  }

  lemma TagTicks(s: Sys, t: nat)
    requires Inv(s) && t in s.tags && KeepsAnchor(s.tags[t])
    ensures Inv(Next(s, TagTick(t), true))
  {
    TagTickKeeps(s.tags[t], 1, s.anchor.me);
    var r := Superframe(s.tags[t]);
    assert TagOk(r, s.anchor.me) && r.me == t && r.slotIdx == s.tags[t].slotIdx && r.slotReqt == s.tags[t].slotReqt;
    hide Superframe, KeepsAnchor;
    TagStepKeeps(s, t, r);
    hide Inv;
  }

  lemma StepKeeps(s: Sys, e: Event)
    requires Inv(s) && Enabled(s, e, true)
    ensures Inv(Next(s, e, true))
  {
    match e
    case AnchorTick => AnchorTickKeeps(s);
    case AnchorBeacon(alloc, heard) =>
      BeaconGrants(s.anchor, alloc);
      BeaconKeeps(s, BeaconMine(s.anchor, alloc).0, BeaconMine(s.anchor, alloc).1, heard);
      hide BeaconMine, Inv, AfterBeacon;
    case AnchorService => AnchorListens(s);
    case AnchorReset(sync) =>
      AnchorStepKeeps(s, SyncReset(s.anchor, sync));
      hide SyncReset, Inv;
    case TagTick(t) => TagTicks(s, t);
    case TagService(t, alloc, delivered) => ServiceKeeps(s, t, alloc, delivered);
    case TagRanging(t, delivered) => RangingKeeps(s, t, delivered);
    case TagReset(t, sync) =>
      TagStepKeeps(s, t, SyncReset(s.tags[t], sync));
      hide SyncReset, Inv;
  }

  lemma {:induction false} RunKeeps(s: Sys, es: seq<Event>)
    requires Inv(s) && CanRun(s, es, true)
    ensures Inv(Run(s, es, true))
    decreases |es|
  {
    if es != [] {
      StepKeeps(s, es[0]);
      RunKeeps(Next(s, es[0], true), es[1..]);
    }
  }

  // ------------------------------------------------------- grants and revocations

  /** Row j after a superframe: gone with its eleventh silent superframe, older by one before that. */
  ghost function Aged(n: Node): Node {
    var t := (n.timeout + 1) % POW8;
    if t > ANCHOR_TIMEOUT then CLEARED else n.(available := false, timeout := t)
  }

  ghost predicate Expires(n: Node) {
    (n.timeout + 1) % POW8 > ANCHOR_TIMEOUT
  }

  /** Rows from i on, none of which is the anchor's own. */
  lemma {:induction false} AnchorTicksRows(a: Rti, i: nat)
    requires AnchorOk(a) && 2 <= i <= NSLOTS
    ensures var b := TickFrom(a, i);
      && b == a.(nodes := b.nodes) && b.Valid()
      && (forall j :: 0 <= j < NSLOTS && j != a.slotIdx ==> b.nodes[j] == if j < i then a.nodes[j] else Aged(a.nodes[j]))
      && b.nodes[a.slotIdx] == a.nodes[a.slotIdx].(slotMap := b.OwnMap())
      && (forall k :: k in b.OwnMap() <==> k in a.OwnMap() && !(i <= k < NSLOTS && Expires(a.nodes[k])))
    decreases NSLOTS - i
  {
    if i < NSLOTS {
      AnchorTicksRow(a, i);
      hide TickNode, Expires, Aged;
      AnchorTicksRows(TickNode(a, i), i + 1);
    }
  }

  /** One row, not the anchor's own. */
  lemma AnchorTicksRow(a: Rti, i: nat)
    requires AnchorOk(a) && 2 <= i < NSLOTS
    ensures var b := TickNode(a, i);
      && b == a.(nodes := b.nodes) && AnchorOk(b)
      && (forall j :: 0 <= j < NSLOTS && j != a.slotIdx ==> b.nodes[j] == if j == i then Aged(a.nodes[j]) else a.nodes[j])
      && b.nodes[a.slotIdx] == a.nodes[a.slotIdx].(slotMap := b.OwnMap())
      && (forall k :: k in b.OwnMap() <==> k in a.OwnMap() && !(k == i && Expires(a.nodes[k])))
  {
  }

  /**
   * A superframe at an anchor whose own row does not expire: every other row ages by one or is
   * cleared at its eleventh silent superframe, and the own map loses exactly the bits of the cleared rows.
   */
  lemma SuperframeAgesRows(a: Rti)
    requires AnchorOk(a) && a.slotIdx == MASTER_SLOT && !Expires(a.nodes[MASTER_SLOT])
    ensures var b := Superframe(a);
      && b.Valid() && b.slotIdx == a.slotIdx && b.slotReqt == a.slotReqt && b.slotReqtAddr == a.slotReqtAddr
      && (forall j :: 2 <= j < NSLOTS ==> b.nodes[j] == Aged(a.nodes[j]))
      && b.nodes[MASTER_SLOT] == Aged(a.nodes[MASTER_SLOT]).(slotMap := b.OwnMap())
      && (forall k :: k in b.OwnMap() <==> k in a.OwnMap() && !(2 <= k < NSLOTS && Expires(a.nodes[k])))
  {
    AnchorTicksRows(TickNode(a, 1), 2);
    assert TickFrom(a, 1) == TickFrom(TickNode(a, 1), 2);
  }

  // ------------------------------------------- the anchor's side, in every run at all

  /** Enough for what the anchor does, whatever becomes of the tags. */
  ghost predicate AnchorSide(s: Sys) {
    WellTyped(s) && AnchorOk(s.anchor) && forall t :: t in s.tags ==> s.tags[t].role == Tag
  }

  lemma {:induction false} TickKeepsRole(r: Rti, i: nat)
    requires r.Valid() && 1 <= i <= NSLOTS
    ensures TickFrom(r, i).role == r.role
    decreases NSLOTS - i
  {
    if i < NSLOTS {
      TickKeepsRole(TickNode(r, i), i + 1);
    }
  }

  lemma {:induction false} AbsorbKeepsRole(r: Rti, slot: nat, f: Frame, i: nat)
    requires r.Valid() && 1 <= slot <= BCN_SLOT_MAX && i <= |f.msgs|
    ensures AbsorbAll(r, slot, f, i).role == r.role
    decreases |f.msgs| - i
  {
    if i < |f.msgs| {
      AbsorbKeepsRole(Absorb(r, slot, f.src, f.msgs[i]), slot, f, i + 1);
    }
  }

  lemma HearingKeepsRole(r: Rti, slot: nat, rx: Rx)
    requires r.Valid() && 1 <= slot <= BCN_SLOT_MAX
    ensures BeaconOther(r, slot, Some(rx)).role == r.role
  {
    var o := Identify(r, slot, rx);
    if o.Some? {
      AbsorbKeepsRole(MarkAlive(o.value, slot), slot, rx.frame, 0);
    }
  }

  /** What a tag sends in the service slot is a request for a ranging slot. */
  lemma TagAsks(r: Rti, alloc: bool)
    requires r.Valid() && r.role == Tag
    ensures var (r', tx) := Service(r, None, alloc);
      r'.role == Tag && (tx.Some? ==> exists k :: SVC_SLOT < k < NSLOTS && tx.value.msgs == [Reqt(k)])
  {
  }

  /** The anchor's row in slot k is on, and is not after the step. */
  ghost predicate Loses(s: Sys, e: Event, strict: bool, k: nat)
    requires WellTyped(s) && Enabled(s, e, strict) && k < NSLOTS
  {
    k in s.anchor.OwnMap() && k !in Next(s, e, strict).anchor.OwnMap()
  }

  /** What can take a slot away. */
  ghost predicate Revokes(s: Sys, e: Event, k: nat)
    requires WellTyped(s) && k < NSLOTS
  {
    e.AnchorReset? || (e.AnchorTick? && (Expires(s.anchor.nodes[k]) || Expires(s.anchor.nodes[s.anchor.slotIdx])))
  }

  lemma TickClears(a: Rti, k: nat)
    requires AnchorOk(a) && SVC_SLOT < k < NSLOTS
    ensures k in a.OwnMap() && k !in Superframe(a).OwnMap() ==> Expires(a.nodes[k]) || Expires(a.nodes[a.slotIdx])
  {
    AnchorTicksRows(TickNode(a, 1), 2);
    assert TickFrom(a, 1) == TickFrom(TickNode(a, 1), 2);
  }

  lemma AnyAnchorStepKeeps(s: Sys, e: Event, strict: bool, k: nat)
    requires AnchorSide(s) && Enabled(s, e, strict) && SVC_SLOT < k < NSLOTS
    requires e.AnchorTick? || e.AnchorService? || e.AnchorReset?
    ensures AnchorSide(Next(s, e, strict))
    ensures Loses(s, e, strict, k) ==> Revokes(s, e, k)
  {
    match e
    case AnchorTick =>
      AnchorTickRevokes(s.anchor, 1);
      hide Superframe, Expires;
      SuperframeRevokes(s.anchor);
      TickClears(s.anchor, k);
    case AnchorService =>
      hide Service;
      AnchorServes(s.anchor, None);
    case AnchorReset(_) =>
  }

  lemma HearKeepsRoles(tags: map<nat, Rti>, f: Frame, heard: map<nat, real>)
    requires forall t :: t in tags ==> tags[t].Valid() && tags[t].role == Tag
    ensures forall t :: t in tags ==> Hear(tags, f, heard)[t].role == Tag
  {
    forall t | t in tags && t in heard
      ensures BeaconOther(tags[t], MASTER_SLOT, Some(Rx(f, heard[t]))).role == Tag
    {
      HearingKeepsRole(tags[t], MASTER_SLOT, Rx(f, heard[t]));
    }
    hide BeaconOther;
  }

  lemma BeaconKeepsSide(s: Sys, a: Rti, tx: Option<Frame>, heard: map<nat, real>)
    requires AnchorSide(s) && AnchorOk(a)
    ensures AnchorSide(AfterBeacon(s, a, tx, heard)) && AfterBeacon(s, a, tx, heard).anchor == a
  {
    if tx.Some? {
      HearKeepsRoles(s.tags, tx.value, heard);
    }
    hide Hear, AnchorOk, Adopts, Count;
  }

  lemma AnyBeaconKeeps(s: Sys, alloc: bool, heard: map<nat, real>, strict: bool, k: nat)
    requires AnchorSide(s) && Enabled(s, AnchorBeacon(alloc, heard), strict) && SVC_SLOT < k < NSLOTS
    ensures AnchorSide(Next(s, AnchorBeacon(alloc, heard), strict))
    ensures !Loses(s, AnchorBeacon(alloc, heard), strict, k)
  {
    BeaconGrants(s.anchor, alloc);
    var (a, tx) := BeaconMine(s.anchor, alloc);
    BeaconKeepsSide(s, a, tx, heard);
    hide BeaconMine, AfterBeacon, AnchorSide;
  }

  lemma TagKeepsSide(s: Sys, t: nat, r: Rti)
    requires AnchorSide(s) && r.Valid() && r.role == Tag
    ensures AnchorSide(WithTag(s, t, r)) && WithTag(s, t, r).anchor == s.anchor
  {
    hide AnchorOk;
  }

  lemma AnchorKeepsSide(s: Sys, a: Rti)
    requires AnchorSide(s) && AnchorOk(a)
    ensures AnchorSide(WithAnchor(s, a)) && WithAnchor(s, a).anchor == a
  {
    hide AnchorOk, Count;
  }

  lemma SuperframeKeepsRole(r: Rti)
    requires r.Valid()
    ensures Superframe(r).role == r.role
  {
    TickKeepsRole(r, 1);
  }

  lemma AnyServiceKeeps(s: Sys, t: nat, alloc: bool, delivered: bool, strict: bool)
    requires AnchorSide(s) && t in s.tags
    ensures var s' := Next(s, TagService(t, alloc, delivered), strict);
      AnchorSide(s') && s'.anchor.OwnMap() == s.anchor.OwnMap()
  {
    var (r, tx) := Service(s.tags[t], None, alloc);
    TagAsks(s.tags[t], alloc);
    TagKeepsSide(s, t, r);
    if delivered && tx.Some? {
      AnchorServes(s.anchor, tx);
      AnchorKeepsSide(WithTag(s, t, r), Service(s.anchor, tx, true).0);
    }
    hide Service, AnchorSide, WithTag, WithAnchor, AnchorOk;
  }

  lemma AnyRangingKeeps(s: Sys, t: nat, delivered: bool, strict: bool)
    requires AnchorSide(s) && t in s.tags && SVC_SLOT < s.tags[t].slotIdx
    ensures var s' := Next(s, TagRanging(t, delivered), strict);
      AnchorSide(s') && s'.anchor.OwnMap() == s.anchor.OwnMap()
  {
    var k := s.tags[t].slotIdx;
    var r, a := Ranging(s.tags[t], k, None), Ranging(s.anchor, k, if delivered then Some(t) else None);
    assert r.role == Tag && AnchorOk(a) && a.OwnMap() == s.anchor.OwnMap();
    TagKeepsSide(s, t, r);
    AnchorKeepsSide(WithTag(s, t, r), a);
    hide AnchorSide, Ranging, WithTag, WithAnchor, AnchorOk;
  }

  lemma AnyTagStepKeeps(s: Sys, e: Event, strict: bool, k: nat)
    requires AnchorSide(s) && Enabled(s, e, strict) && SVC_SLOT < k < NSLOTS
    requires e.TagTick? || e.TagService? || e.TagRanging? || e.TagReset?
    ensures AnchorSide(Next(s, e, strict))
    ensures !Loses(s, e, strict, k)
  {
    match e
    case TagTick(t) =>
      SuperframeKeepsRole(s.tags[t]);
      TagKeepsSide(s, t, Superframe(s.tags[t]));
      hide Superframe, AnchorSide, WithTag;
    case TagService(t, alloc, delivered) =>
      AnyServiceKeeps(s, t, alloc, delivered, strict);
      hide Next, AnchorSide;
    case TagRanging(t, delivered) =>
      AnyRangingKeeps(s, t, delivered, strict);
      hide Next, AnchorSide;
    case TagReset(t, sync) =>
      TagKeepsSide(s, t, SyncReset(s.tags[t], sync));
      hide SyncReset, AnchorSide, WithTag;
  }

  /** One step, with or without tags timing the anchor out. */
  lemma AnyStepKeeps(s: Sys, e: Event, strict: bool, k: nat)
    requires AnchorSide(s) && Enabled(s, e, strict) && SVC_SLOT < k < NSLOTS
    ensures AnchorSide(Next(s, e, strict))
    ensures Loses(s, e, strict, k) ==> Revokes(s, e, k)
  {
    hide Next, AnchorSide, Loses, Revokes;
    if e.AnchorBeacon? {
      AnyBeaconKeeps(s, e.alloc, e.heard, strict, k);
    } else if e.AnchorTick? || e.AnchorService? || e.AnchorReset? {
      AnyAnchorStepKeeps(s, e, strict, k);
    } else {
      AnyTagStepKeeps(s, e, strict, k);
    }
  }

  lemma {:induction false} SuperframeRevokes(a: Rti)
    requires AnchorOk(a) && OnlyRevokes(a, TickFrom(a, 1))
    ensures AnchorOk(Superframe(a))
  {
  }

  lemma StepCounts(s: Sys, e: Event, strict: bool, k: nat)
    requires WellTyped(s) && Enabled(s, e, strict) && k < NSLOTS
    ensures Next(s, e, strict).clears[k] == s.clears[k] + if Loses(s, e, strict, k) then 1 else 0
  {
  }

  /** The only ways to lose a bit: a reset, or a superframe that finds the row, or the anchor's own, ten superframes old. */
  lemma BitsAreClearedBy(s: Sys, e: Event, strict: bool, k: nat)
    requires AnchorSide(s) && Enabled(s, e, strict) && SVC_SLOT < k < NSLOTS
    ensures var s' := Next(s, e, strict);
      && s.clears[k] <= s'.clears[k] <= s.clears[k] + 1
      && (s'.clears[k] != s.clears[k] ==>
            e.AnchorReset? || (e.AnchorTick? && (Expires(s.anchor.nodes[k]) || Expires(s.anchor.nodes[s.anchor.slotIdx]))))
  {
    hide Next, Expires, Loses;
    StepCounts(s, e, strict, k);
    AnyStepKeeps(s, e, strict, k);
  }

  /** Along any run the clearings of a slot only become more, and without a new one its bit stays. */
  lemma {:induction false} BitStays(s: Sys, es: seq<Event>, strict: bool, k: nat)
    requires AnchorSide(s) && CanRun(s, es, strict) && SVC_SLOT < k < NSLOTS
    ensures var s' := Run(s, es, strict);
      && AnchorSide(s') && s.clears[k] <= s'.clears[k]
      && (k in s.anchor.OwnMap() && s'.clears[k] == s.clears[k] ==> k in s'.anchor.OwnMap())
    decreases |es|
  {
    if es != [] {
      hide Next, AnchorSide, Revokes;
      var s1 := Next(s, es[0], strict);
      AnyStepKeeps(s, es[0], strict, k);
      StepCounts(s, es[0], strict, k);
      BitStays(s1, es[1..], strict, k);
    }
  }

  /**
   * A slot the anchor has recorded is not conceded again, to anybody, before its bit has been cleared
   * (BitsAreClearedBy says what can clear it), whatever run leads from there to another beacon, also one in
   * which tags time the anchor out.
   */
  lemma {:induction false} NoSecondGrant(s: Sys, es: seq<Event>, strict: bool, s': Sys, k: nat, alloc: bool)
    requires AnchorSide(s) && CanRun(s, es, strict) && s' == Run(s, es, strict)
    requires SVC_SLOT < k < NSLOTS && k in s.anchor.OwnMap() && s'.clears[k] == s.clears[k]
    requires s'.anchor.slotIdx == MASTER_SLOT
    ensures var tx := BeaconMine(s'.anchor, alloc).1; tx.Some? ==> Acpt(k) !in tx.value.msgs
  {
    BitStays(s, es, strict, k);
    hide Run, CanRun, AnchorSide;
  }

  /** The grant tag t last acted on is current: the bit of its slot has not been cleared since. */
  ghost predicate Current(s: Sys, t: nat)
    requires WellTyped(s)
  {
    t in s.held && s.held[t].slot < NSLOTS && s.held[t].clears == s.clears[s.held[t].slot]
  }

  ghost predicate GrantOk(s: Sys, t: nat)
    requires WellTyped(s) && t in s.held
  {
    && SVC_SLOT < s.held[t].slot < NSLOTS && s.held[t].clears <= s.clears[s.held[t].slot]
    && (Current(s, t) ==> Recorded(s, t, s.held[t].slot))
  }

  ghost predicate GrantsOk(s: Sys) {
    WellTyped(s) && forall t :: t in s.held ==> GrantOk(s, t)
  }

  /** The anchor may lose rows but neither grants nor reassigns any. */
  ghost predicate KeepsRows(a: Rti, b: Rti) {
    && a.Valid() && b.Valid()
    && forall k :: SVC_SLOT < k < NSLOTS && k in b.OwnMap() ==>
         k in a.OwnMap() && b.nodes[k].addr == a.nodes[k].addr && b.slotIdx == a.slotIdx
  }

  lemma RowsKeepGrants(s: Sys, a: Rti)
    requires GrantsOk(s) && KeepsRows(s.anchor, a)
    ensures GrantsOk(WithAnchor(s, a))
  {
    var s' := WithAnchor(s, a);
    forall t | t in s'.held
      ensures GrantOk(s', t)
    {
      assert GrantOk(s, t);
    }
  }

  lemma TagsKeepGrants(s: Sys, t: nat, r: Rti)
    requires GrantsOk(s) && r.Valid()
    ensures GrantsOk(WithTag(s, t, r))
  {
    var s' := WithTag(s, t, r);
    forall u | u in s'.held
      ensures GrantOk(s', u)
    {
      assert GrantOk(s, u);
    }
  }

  /** A beacon concedes a slot nobody holds a current grant of. */
  lemma BeaconKeepsGrants(s: Sys, a: Rti, tx: Option<Frame>, heard: map<nat, real>)
    requires GrantsOk(s) && Grants(s.anchor, a, tx)
    ensures GrantsOk(AfterBeacon(s, a, tx, heard))
  {
    hide Hear;
    var s' := AfterBeacon(s, a, tx, heard);
    forall t | t in s'.held
      ensures GrantOk(s', t)
    {
      if t in s.held {
        assert GrantOk(s, t);
      }
    }
  }

  lemma TickKeepsRows(a: Rti)
    requires AnchorOk(a)
    ensures KeepsRows(a, Superframe(a))
  {
    AnchorTickRevokes(a, 1);
  }

  /** Every step, with or without tags timing the anchor out, keeps the grants in order. */
  lemma AnyStepKeepsGrants(s: Sys, e: Event, strict: bool)
    requires AnchorSide(s) && GrantsOk(s) && Enabled(s, e, strict)
    ensures GrantsOk(Next(s, e, strict))
  {
    hide GrantsOk;
    match e
    case AnchorTick =>
      TickKeepsRows(s.anchor);
      RowsKeepGrants(s, Superframe(s.anchor));
    case AnchorBeacon(alloc, heard) =>
      BeaconGrants(s.anchor, alloc);
      BeaconKeepsGrants(s, BeaconMine(s.anchor, alloc).0, BeaconMine(s.anchor, alloc).1, heard);
    case AnchorService =>
      RowsKeepGrants(s, Service(s.anchor, None, true).0);
    case AnchorReset(sync) =>
      RowsKeepGrants(s, SyncReset(s.anchor, sync));
    case TagTick(t) =>
      TagsKeepGrants(s, t, Superframe(s.tags[t]));
    case TagService(t, alloc, delivered) =>
      var (r, tx) := Service(s.tags[t], None, alloc);
      TagAsks(s.tags[t], alloc);
      TagsKeepGrants(s, t, r);
      if delivered && tx.Some? {
        AnchorServes(s.anchor, tx);
        RowsKeepGrants(WithTag(s, t, r), Service(s.anchor, tx, true).0);
      }
    case TagRanging(t, delivered) =>
      var k := s.tags[t].slotIdx;
      TagsKeepGrants(s, t, Ranging(s.tags[t], k, None));
      RowsKeepGrants(WithTag(s, t, Ranging(s.tags[t], k, None)),
                     Ranging(s.anchor, k, if delivered then Some(t) else None));
    case TagReset(t, sync) =>
      TagsKeepGrants(s, t, SyncReset(s.tags[t], sync));
  }

  lemma {:induction false} AnyRunKeepsGrants(s: Sys, es: seq<Event>, strict: bool)
    requires AnchorSide(s) && GrantsOk(s) && CanRun(s, es, strict)
    ensures AnchorSide(Run(s, es, strict)) && GrantsOk(Run(s, es, strict))
    decreases |es|
  {
    if es != [] {
      hide Next, AnchorSide, GrantsOk, Revokes;
      AnyStepKeeps(s, es[0], strict, SVC_SLOT + 1);
      AnyStepKeepsGrants(s, es[0], strict);
      AnyRunKeepsGrants(Next(s, es[0], strict), es[1..], strict);
    }
  }

  /**
   * In every state any run at all can reach: a tag whose last grant was made since the bit of its slot was last
   * cleared is the one the anchor's table names for that slot, and so no two tags have current grants of one slot.
   */
  lemma {:induction false} GrantsAreExclusive(s0: Sys, es: seq<Event>, strict: bool, s: Sys, t: nat, u: nat)
    requires Init(s0) && CanRun(s0, es, strict) && s == Run(s0, es, strict)
    ensures AnchorSide(s)
    ensures Current(s, t) ==> SVC_SLOT < s.held[t].slot && Recorded(s, t, s.held[t].slot)
    ensures Current(s, t) && Current(s, u) && t != u ==> s.held[t].slot != s.held[u].slot
  {
    AnyRunKeepsGrants(s0, es, strict);
    hide Run, CanRun, Init, AnchorSide;
    assert t in s.held ==> GrantOk(s, t);
    assert u in s.held ==> GrantOk(s, u);
  }

  /** The slots taken according to some known beacon node heard in this superframe. */
  ghost function Busy(r: Rti): SlotMap
    requires r.Valid()
  {
    set i: nat, k | 1 <= i <= 14 && r.nodes[i].addr != 0 && r.nodes[i].available && k in r.nodes[i].slotMap :: k
  }

  lemma BusyIffNotFree(r: Rti, k: nat)
    requires r.Valid()
    ensures k in Busy(r) <==> !Free(r, k)
  {
    if !Free(r, k) {
      var i :| Known(r, i) && r.nodes[i].available && k in r.nodes[i].slotMap;
      assert 1 <= i <= 14 && r.nodes[i].addr != 0;
    }
    if k in Busy(r) {
      var i: nat :| 1 <= i <= 14 && r.nodes[i].addr != 0 && r.nodes[i].available && k in r.nodes[i].slotMap;
      assert Known(r, i);
    }
  }

  /**
   * What a node that still waits asks for, and remembers: the least slot not busy, of 1 to 14 for an anchor and of 16 to
   * 19 for a tag.
   */
  lemma RequestsLeastFreeSlot(r: Rti, rx: Option<Frame>)
    requires r.Valid() && !AllAccepted(r)
    requires rx.Some? ==> forall i :: 0 <= i < |rx.value.msgs| && rx.value.msgs[i].Reqt? ==> rx.value.msgs[i].reqt < NSLOTS
    ensures var (r', tx) := Service(r, rx, true);
      var lo, last := if r.role == Anchor then 1 else 16, if r.role == Anchor then 14 else 19;
      && (tx.Some? ==>
            && tx.value == Frame(BROADCAST, r.me, [Reqt(r'.slotReqt)])
            && 2 <= r'.slotReqt && lo <= r'.slotReqt <= last && r'.slotReqt !in Busy(r)
            && forall j :: lo <= j < r'.slotReqt ==> j in Busy(r))
      && (tx.None? <==>
            (r.role == Anchor && 1 !in Busy(r)) || forall j :: lo <= j <= last ==> j in Busy(r))
      && ((forall j :: lo <= j <= last ==> j in Busy(r)) ==> r'.slotReqt == r.slotReqt)
  {
    forall k: nat ensures k in Busy(r) <==> !Free(r, k) {
      BusyIffNotFree(r, k);
    }
    hide Busy, Free, AllAccepted;
    var k := LeastFree(r, RangeLo(r));
    assert k != 0 ==> k !in Busy(r);
  }
}
