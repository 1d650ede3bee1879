/** How long a granted slot lasts: what keeps a row of the anchor's table alive, over whole runs. */
module TdmaAlive {
  import opened Prelude
  import opened Tdma
  import opened TdmaSystem

  // ------------------------------------------------------------ silence counters

  /** No row has been silent for longer than the code waits. */
  ghost predicate Young(a: Rti) {
    forall j :: 0 <= j < |a.nodes| ==> a.nodes[j].timeout <= ANCHOR_TIMEOUT
  }

  /** The anchor receives tag t ranging in slot k. */
  ghost predicate Hears(s: Sys, e: Event, t: nat, k: nat) {
    e == TagRanging(t, true) && t in s.tags && s.tags[t].slotIdx == k
  }

  /** Superframes of the anchor since it last heard tag t in slot k. */
  ghost function Silent(s: Sys, e: Event, t: nat, k: nat, n: nat): nat {
    if e.AnchorTick? then n + 1 else if Hears(s, e, t, k) then 0 else n
  }

  /** Superframes of the anchor since its own beacon slot. */
  ghost function Idle(e: Event, n: nat): nat {
    if e.AnchorTick? then n + 1 else if e.AnchorBeacon? then 0 else n
  }

  /** The anchor is not reset, and no superframe is the eleventh since its own beacon slot, or since it heard the tag. */
  ghost predicate InTime(s: Sys, es: seq<Event>, strict: bool, t: nat, k: nat, idle: nat, silent: nat)
    requires WellTyped(s) && CanRun(s, es, strict)
    decreases |es|
  {
    es == [] ||
      (&& !es[0].AnchorReset?
       && (es[0].AnchorTick? ==> idle < ANCHOR_TIMEOUT && silent < ANCHOR_TIMEOUT)
       && InTime(Next(s, es[0], strict), es[1..], strict, t, k, Idle(es[0], idle), Silent(s, es[0], t, k, silent)))
  }

  // ----------------------------------------------------------- one step at a time

  lemma {:induction false} TickKeepsYoung(a: Rti, i: nat)
    requires a.Valid() && Young(a) && 1 <= i <= NSLOTS
    ensures Young(TickFrom(a, i))
    decreases NSLOTS - i
  {
    if i < NSLOTS {
      TickNodeKeepsYoung(a, i);
      hide TickNode, Young;
      TickKeepsYoung(TickNode(a, i), i + 1);
    }
  }

  lemma TickNodeKeepsYoung(a: Rti, i: nat)
    requires a.Valid() && Young(a) && 1 <= i < NSLOTS
    ensures Young(TickNode(a, i))
  {
  }

  /** What the step makes of the anchor's table. */
  ghost predicate Keeps(a: Rti, b: Rti, k: nat, idle: nat, silent: nat)
    requires a.Valid() && b.Valid() && k < NSLOTS
  {
    && b.slotIdx == MASTER_SLOT && k in b.OwnMap()
    && b.nodes[k].addr == a.nodes[k].addr
    && b.nodes[k].timeout == silent && b.nodes[MASTER_SLOT].timeout == idle
  }

  /** The row of slot k is on in the anchor's map. */
  ghost predicate On(a: Rti, k: nat) {
    AnchorOk(a) && Young(a) && a.slotIdx == MASTER_SLOT && SVC_SLOT < k < NSLOTS && k in a.OwnMap()
  }

  /** A frame from the recorded node, or the node's own slot, ends the silence of that row and of no other. */
  lemma RangingEndsSilence(r: Rti, idx: nat, heard: Option<nat>)
    requires r.Valid() && SVC_SLOT < idx < NSLOTS
    ensures var r' := Ranging(r, idx, heard);
      && r' == r.(nodes := r'.nodes) && |r'.nodes| == NSLOTS
      && (forall j :: 0 <= j < NSLOTS ==> r'.nodes[j] == r.nodes[j].(timeout := r'.nodes[j].timeout))
      && (forall j :: 0 <= j < NSLOTS && j != idx ==> r'.nodes[j].timeout == r.nodes[j].timeout)
      && r'.nodes[idx].timeout ==
           if r.slotIdx != 0 && (idx == r.slotIdx || heard == Some(r.nodes[idx].addr)) then 0 else r.nodes[idx].timeout
  {
  }

  /** The own row is dropped first, and with it the anchor's whole map. */
  lemma OwnRowExpires(a: Rti, k: nat)
    requires On(a, k) && Expires(a.nodes[MASTER_SLOT])
    ensures k !in Superframe(a).OwnMap()
  {
    AnchorTicksRows(TickNode(a, 1), 2);
    assert TickFrom(a, 1) == TickFrom(TickNode(a, 1), 2);
  }

  lemma OtherRowsAge(a: Rti, k: nat)
    requires On(a, k) && !Expires(a.nodes[MASTER_SLOT])
    ensures var b := Superframe(a);
      if Expires(a.nodes[k]) then k !in b.OwnMap()
      else Keeps(a, b, k, a.nodes[MASTER_SLOT].timeout + 1, a.nodes[k].timeout + 1)
  {
    SuperframeAgesRows(a);
    hide Superframe;
  }

  lemma TickSilences(a: Rti, k: nat)
    requires On(a, k)
    ensures var b, idle, silent := Superframe(a), a.nodes[MASTER_SLOT].timeout + 1, a.nodes[k].timeout + 1;
      && Young(b)
      && (if idle <= ANCHOR_TIMEOUT && silent <= ANCHOR_TIMEOUT then Keeps(a, b, k, idle, silent) else k !in b.OwnMap())
  {
    TickKeepsYoung(a, 1);
    assert Young(Superframe(a));
    hide Superframe;
    if Expires(a.nodes[MASTER_SLOT]) {
      OwnRowExpires(a, k);
    } else {
      OtherRowsAge(a, k);
    }
  }

  lemma BeaconEndsIdling(a: Rti, alloc: bool, k: nat)
    requires On(a, k)
    ensures Young(BeaconMine(a, alloc).0) && Keeps(a, BeaconMine(a, alloc).0, k, 0, a.nodes[k].timeout)
  {
  }

  lemma ResetClears(a: Rti, sync: Sync, k: nat)
    requires On(a, k)
    ensures Young(SyncReset(a, sync)) && k !in SyncReset(a, sync).OwnMap()
  {
  }

  lemma RangingSilences(s: Sys, t: nat, delivered: bool, u: nat, k: nat)
    requires AnchorSide(s) && On(s.anchor, k) && t in s.tags && SVC_SLOT < s.tags[t].slotIdx && s.anchor.nodes[k].addr == u
    ensures var b := Ranging(s.anchor, s.tags[t].slotIdx, if delivered then Some(t) else None);
      && Young(b)
      && Keeps(s.anchor, b, k, s.anchor.nodes[MASTER_SLOT].timeout, Silent(s, TagRanging(t, delivered), u, k, s.anchor.nodes[k].timeout))
  {
    RangingEndsSilence(s.anchor, s.tags[t].slotIdx, if delivered then Some(t) else None);
  }

  /** The anchor's table after any step. */
  lemma StepSilences(s: Sys, e: Event, strict: bool, t: nat, k: nat)
    requires AnchorSide(s) && On(s.anchor, k) && s.anchor.nodes[k].addr == t && Enabled(s, e, strict)
    ensures var a, b := s.anchor, Next(s, e, strict).anchor;
      var idle, silent := Idle(e, a.nodes[MASTER_SLOT].timeout), Silent(s, e, t, k, a.nodes[k].timeout);
      && Young(b)
      && (if !e.AnchorReset? && (e.AnchorTick? ==> idle <= ANCHOR_TIMEOUT && silent <= ANCHOR_TIMEOUT)
          then Keeps(a, b, k, idle, silent)
          else k !in b.OwnMap())
  {
    match e
    case AnchorTick =>
      TickSilences(s.anchor, k);
      hide Superframe, AnchorSide;
    case AnchorBeacon(alloc, heard) =>
      BeaconEndsIdling(s.anchor, alloc, k);
      BeaconGrants(s.anchor, alloc);
      BeaconKeepsSide(s, BeaconMine(s.anchor, alloc).0, BeaconMine(s.anchor, alloc).1, heard);
      hide BeaconMine, AfterBeacon, AnchorSide;
    case AnchorService =>
      AnchorServes(s.anchor, None);
      hide Service, AnchorSide;
    case AnchorReset(sync) =>
      ResetClears(s.anchor, sync, k);
      hide SyncReset, AnchorSide;
    case TagTick(_) =>
      hide Superframe, AnchorSide;
    case TagService(u, alloc, delivered) =>
      var (r, tx) := Service(s.tags[u], None, alloc);
      TagAsks(s.tags[u], alloc);
      if delivered && tx.Some? {
        AnchorServes(s.anchor, tx);
      }
      hide Service, AnchorSide;
    case TagRanging(u, delivered) =>
      RangingSilences(s, u, delivered, t, k);
      hide Ranging, AnchorSide;
    case TagReset(_, _) =>
      hide SyncReset, AnchorSide;
  }

  // ------------------------------------------------------------------- all runs

  /** Every reachable state is young. */
  lemma {:induction false} RunKeepsYoung(s: Sys, es: seq<Event>, strict: bool)
    requires AnchorSide(s) && Young(s.anchor) && CanRun(s, es, strict)
    ensures AnchorSide(Run(s, es, strict)) && Young(Run(s, es, strict).anchor)
    decreases |es|
  {
    if es != [] {
      AnyStepKeeps(s, es[0], strict, SVC_SLOT + 1);
      StepKeepsYoung(s, es[0], strict);
      hide Next, AnchorSide, Young, Revokes, Loses;
      RunKeepsYoung(Next(s, es[0], strict), es[1..], strict);
    }
  }

  lemma StepKeepsYoung(s: Sys, e: Event, strict: bool)
    requires AnchorSide(s) && Young(s.anchor) && Enabled(s, e, strict)
    ensures Young(Next(s, e, strict).anchor)
  {
    match e
    case AnchorTick =>
      TickKeepsYoung(s.anchor, 1);
      assert Young(Superframe(s.anchor));
      hide Superframe, AnchorSide, Young;
    case AnchorBeacon(alloc, heard) =>
      BeaconKeepsYoung(s.anchor, alloc);
      BeaconGrants(s.anchor, alloc);
      BeaconKeepsSide(s, BeaconMine(s.anchor, alloc).0, BeaconMine(s.anchor, alloc).1, heard);
      hide BeaconMine, AfterBeacon, AnchorSide, Young;
    case AnchorService =>
      AnchorServes(s.anchor, None);
      hide Service, AnchorSide;
    case AnchorReset(sync) =>
      assert Young(SyncReset(s.anchor, sync));
      hide SyncReset, AnchorSide, Young;
    case TagTick(_) =>
      hide Superframe, AnchorSide, Young;
    case TagService(u, alloc, delivered) =>
      var (r, tx) := Service(s.tags[u], None, alloc);
      TagAsks(s.tags[u], alloc);
      if delivered && tx.Some? {
        AnchorServes(s.anchor, tx);
      }
      hide Service, AnchorSide;
    case TagRanging(u, delivered) =>
      RangingEndsSilence(s.anchor, s.tags[u].slotIdx, if delivered then Some(u) else None);
      hide Ranging, AnchorSide;
    case TagReset(_, _) =>
      hide SyncReset, AnchorSide, Young;
  }

  lemma BeaconKeepsYoung(a: Rti, alloc: bool)
    requires AnchorOk(a) && Young(a)
    ensures Young(BeaconMine(a, alloc).0)
  {
  }

  /**
   * From any reachable state on, in every run: the anchor keeps the slot it has recorded for a tag exactly if it is not
   * reset and, up to the end of the run, no superframe is the eleventh since its own beacon slot or since it last heard
   * that tag range in that slot. Then its table still names the tag.
   */
  lemma {:induction false} SlotIsKeptIff(s: Sys, es: seq<Event>, strict: bool, t: nat, k: nat)
    requires AnchorSide(s) && Young(s.anchor) && CanRun(s, es, strict)
    requires SVC_SLOT < k < NSLOTS && Recorded(s, t, k)
    ensures Run(s, es, strict).clears[k] == s.clears[k] <==>
      InTime(s, es, strict, t, k, s.anchor.nodes[MASTER_SLOT].timeout, s.anchor.nodes[k].timeout)
    ensures Run(s, es, strict).clears[k] == s.clears[k] ==> Recorded(Run(s, es, strict), t, k)
    decreases |es|
  {
    if es != [] {
      var e, s1 := es[0], Next(s, es[0], strict);
      AnyStepKeeps(s, e, strict, k);
      StepCounts(s, e, strict, k);
      StepSilences(s, e, strict, t, k);
      hide Next, AnchorSide, Young, Revokes, Hears, Enabled;
      if k in s1.anchor.OwnMap() {
        SlotIsKeptIff(s1, es[1..], strict, t, k);
      } else {
        BitStays(s1, es[1..], strict, k);
      }
    }
  }

  /** That every reachable state will do. */
  lemma {:induction false} KeptSlotInRuns(s0: Sys, es0: seq<Event>, s: Sys, es: seq<Event>, strict: bool, t: nat,
                                          k: nat)
    requires Init(s0) && CanRun(s0, es0, strict) && s == Run(s0, es0, strict) && CanRun(s, es, strict)
    requires SVC_SLOT < k < NSLOTS && Recorded(s, t, k)
    ensures Run(s, es, strict).clears[k] == s.clears[k] <==>
      InTime(s, es, strict, t, k, s.anchor.nodes[MASTER_SLOT].timeout, s.anchor.nodes[k].timeout)
    ensures Run(s, es, strict).clears[k] == s.clears[k] ==> Recorded(Run(s, es, strict), t, k)
  {
    assert AnchorSide(s0) && Young(s0.anchor);
    hide Init, CanRun, Run, InTime, AnchorSide, Young, Recorded;
    RunKeepsYoung(s0, es0, strict);
    SlotIsKeptIff(s, es, strict, t, k);
  }
}
