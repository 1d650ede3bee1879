/**
 * Why the exclusion theorem speaks of grants that have not been revoked: a grant does not restart
 * the silence counter of its row, so the anchor can revoke it one superframe later without the tag
 * noticing, and give the slot to a second tag.
 */
module TdmaTrace {
  import opened Prelude
  import opened Tdma
  import opened TdmaSystem

  ghost function Start(): (s: Sys)
    ensures Init(s) && Inv(s)
  {
    Sys(Fresh(Anchor, true, 1), map[2 := Fresh(Tag, false, 2), 3 := Fresh(Tag, false, 3)], seq(NSLOTS, _ => 0), map[])
  }

  /** P holds at the start and is kept by every step: P contains all reachable states. */
  ghost predicate Closed(P: Sys -> bool) {
    P(Start()) && forall s, e :: Inv(s) && P(s) && Enabled(s, e, true) ==> P(Next(s, e, true))
  }

  lemma InvTyped(s: Sys)
    requires Inv(s)
    ensures WellTyped(s) && AnchorOk(s.anchor)
  {
  }

  lemma Reach(P: Sys -> bool, s: Sys, e: Event)
    requires Closed(P) && P(s) && Inv(s) && Enabled(s, e, true)
    ensures P(Next(s, e, true)) && Inv(Next(s, e, true))
  {
    hide Inv, Next, Enabled;
    StepKeeps(s, e);
  }

  lemma ReachReset(P: Sys -> bool, s: Sys)
    requires Closed(P) && P(s) && Inv(s)
    ensures var s' := WithAnchor(s, SyncReset(s.anchor, Syed)); P(s') && Inv(s')
  {
    hide Closed, Inv, SyncReset;
    InvTyped(s);
    Reach(P, s, AnchorReset(Syed));
    assert Next(s, AnchorReset(Syed), true) == WithAnchor(s, SyncReset(s.anchor, Syed));
  }

  lemma ReachTick(P: Sys -> bool, s: Sys)
    requires Closed(P) && P(s) && Inv(s)
    ensures var s' := WithAnchor(s, Superframe(s.anchor)); P(s') && Inv(s')
  {
    hide Closed, Inv, Superframe;
    InvTyped(s);
    Reach(P, s, AnchorTick);
    assert Next(s, AnchorTick, true) == WithAnchor(s, Superframe(s.anchor));
  }

  lemma ReachBeacon(P: Sys -> bool, s: Sys, heard: map<nat, real>)
    requires Closed(P) && P(s) && Inv(s) && s.anchor.slotIdx == MASTER_SLOT && heard.Keys <= s.tags.Keys
    ensures var (a, tx) := BeaconMine(s.anchor, true);
      var s' := AfterBeacon(s, a, tx, heard); P(s') && Inv(s')
  {
    hide Closed, Inv, BeaconMine, AfterBeacon;
    InvTyped(s);
    Reach(P, s, AnchorBeacon(true, heard));
    var (a, tx) := BeaconMine(s.anchor, true);
    assert Next(s, AnchorBeacon(true, heard), true) == AfterBeacon(s, a, tx, heard);
  }

  lemma NextRequest(s: Sys, t: nat, r: Rti, f: Frame)
    requires WellTyped(s) && t in s.tags && f == Frame(BROADCAST, t, [Reqt(16)])
    requires Service(s.tags[t], None, true) == (r, Some(f))
    ensures r.Valid()
    ensures Next(s, TagService(t, true, true), true) == WithAnchor(WithTag(s, t, r), Service(s.anchor, Some(f), true).0)
  {
    hide Service, WithAnchor, WithTag;
  }

  lemma ReachRequest(P: Sys -> bool, s: Sys, t: nat, r: Rti, f: Frame)
    requires Closed(P) && P(s) && Inv(s) && t in s.tags && f == Frame(BROADCAST, t, [Reqt(16)])
    requires Service(s.tags[t], None, true) == (r, Some(f))
    ensures r.Valid()
    ensures var s' := WithAnchor(WithTag(s, t, r), Service(s.anchor, Some(f), true).0); P(s') && Inv(s')
  {
    hide Closed, Inv, Next, Service, WithAnchor, WithTag;
    InvTyped(s);
    NextRequest(s, t, r, f);
    Reach(P, s, TagService(t, true, true));
  }

  /** The anchor is up, has granted nothing, and every row is n superframes old. */
  ghost predicate Idle(s: Sys, n: nat) {
    && Inv(s) && s.tags == Start().tags
    && s.anchor.slotIdx == MASTER_SLOT && s.anchor.slotReqt == 0 && s.anchor.OwnMap() == {0, 1}
    && forall j :: 1 <= j < NSLOTS ==> s.anchor.nodes[j].timeout == n
  }

  lemma {:induction false} IdleFor(P: Sys -> bool, n: nat) returns (s: Sys)
    requires Closed(P) && n <= ANCHOR_TIMEOUT
    ensures P(s) && Idle(s, n)
  {
    if n == 0 {
      ReachReset(P, Start());
      s := WithAnchor(Start(), SyncReset(Start().anchor, Syed));
    } else {
      var s0 := IdleFor(P, n - 1);
      IdleTick(s0, n - 1);
      ReachTick(P, s0);
      s := WithAnchor(s0, Superframe(s0.anchor));
    }
  }

  lemma IdleTick(s: Sys, n: nat)
    requires Idle(s, n) && n < ANCHOR_TIMEOUT
    ensures var s' := WithAnchor(s, Superframe(s.anchor)); Inv(s') ==> Idle(s', n + 1)
  {
    SuperframeAgesRows(s.anchor);
  }

  /** A tag that has heard nothing yet asks for the first ranging slot. */
  lemma FreshTagAsks(P: Sys -> bool, s: Sys, t: nat) returns (s': Sys)
    requires Closed(P) && P(s) && Inv(s) && t in s.tags && s.tags[t] == Fresh(Tag, false, t)
    requires s.anchor.slotIdx == MASTER_SLOT && s.anchor.slotReqt == 0
    ensures P(s') && Inv(s')
    ensures s' == s.(tags := s.tags[t := s.tags[t].(seqno := 1, slotReqt := 16)],
                     anchor := s.anchor.(slotReqt := 16, slotReqtCntr := 0, slotReqtAddr := t))
  {
    var r := s.tags[t];
    TagAccepted(r, s.anchor.me);
    assert Free(r, 16);
    assert LeastFree(r, RangeLo(r)) == 16;
    var f := Frame(BROADCAST, t, [Reqt(16)]);
    assert Service(r, None, true) == (r.(seqno := 1, slotReqt := 16), Some(f));
    ReachRequest(P, s, t, r.(seqno := 1, slotReqt := 16), f);
    s' := WithAnchor(WithTag(s, t, r.(seqno := 1, slotReqt := 16)), Service(s.anchor, Some(f), true).0);
    hide Inv;
    assert s'.clears == s.clears;
  }

  /** What the anchor sends when it concedes slot 16, and its state after that. */
  lemma Concedes16(a: Rti)
    requires AnchorOk(a) && a.slotIdx == MASTER_SLOT && a.slotReqt == 16 && 16 !in a.OwnMap()
    ensures var (b, tx) := BeaconMine(a, true);
      && tx == Some(Frame(a.slotReqtAddr, a.me, [Acpt(16), Map(a.OwnMap())]))
      && b.Valid() && b.slotIdx == MASTER_SLOT && b.slotReqt == 0 && b.OwnMap() == a.OwnMap() + {16}
      && b.nodes[MASTER_SLOT].timeout == 0 && b.nodes[16].timeout == a.nodes[16].timeout
  {
  }

  /** The grant on record after a beacon that only tag t hears, and adopts. */
  lemma OneHears(s: Sys, a: Rti, f: Frame, t: nat, r: Rti)
    requires WellTyped(s) && a.Valid() && t in s.tags && f.dst == t && |f.msgs| > 0 && f.msgs[0] == Acpt(16)
    requires r == BeaconOther(s.tags[t], MASTER_SLOT, Some(Rx(f, 0.0)))
    requires s.tags[t].slotReqt == 16 && r.slotIdx == 16 && r.slotReqt == 0
    ensures var b := AfterBeacon(s, a, Some(f), map[t := 0.0]);
      && b.anchor == a && b.clears == Count(s.clears, s.anchor, a)
      && b.tags == s.tags[t := r] && b.held == s.held[t := Grant(16, b.clears[16])]
  {
    hide BeaconOther;
    assert Hear(s.tags, f, map[t := 0.0]) == s.tags[t := r];
    assert Adopts(s.tags, f, map[t := 0.0], t);
  }

  /** Between s and b tag t has been granted slot 16, and nothing else has happened to tags and grants. */
  ghost predicate Granted16(s: Sys, b: Sys, t: nat) {
    && WellTyped(s) && WellTyped(b) && t in s.tags && t in b.tags
    && b.tags == s.tags[t := b.tags[t]] && b.tags[t].slotIdx == 16
    && b.held == s.held[t := Grant(16, b.clears[16])] && b.clears[16] == s.clears[16]
    && b.anchor.slotIdx == MASTER_SLOT && b.anchor.slotReqt == 0 && 16 in b.anchor.OwnMap()
    && b.anchor.nodes[MASTER_SLOT].timeout == 0 && b.anchor.nodes[16].timeout == s.anchor.nodes[16].timeout
  }

  lemma BeaconGrants16(s: Sys, t: nat, r: Rti)
    requires WellTyped(s) && AnchorOk(s.anchor) && t in s.tags
    requires s.tags[t].slotReqt == 16 == s.anchor.slotReqt && s.anchor.slotReqtAddr == t
    requires s.anchor.slotIdx == MASTER_SLOT && 16 !in s.anchor.OwnMap()
    requires r == BeaconOther(s.tags[t], MASTER_SLOT, Some(Rx(Frame(t, s.anchor.me, [Acpt(16), Map(s.anchor.OwnMap())]), 0.0)))
    requires r.slotIdx == 16 && r.slotReqt == 0
    ensures var (a, tx) := BeaconMine(s.anchor, true); Granted16(s, AfterBeacon(s, a, tx, map[t := 0.0]), t)
  {
    var (a, tx) := BeaconMine(s.anchor, true);
    Concedes16(s.anchor);
    hide BeaconMine, BeaconOther, AnchorOk;
    OneHears(s, a, tx.value, t, r);
    hide AfterBeacon, Hear, Adopts;
  }

  lemma Hears16(s: Sys, t: nat)
    requires Inv(s) && t in s.tags && s.tags[t].slotReqt == 16
    ensures var r := BeaconOther(s.tags[t], MASTER_SLOT, Some(Rx(Frame(t, s.anchor.me, [Acpt(16), Map(s.anchor.OwnMap())]), 0.0)));
      r.slotIdx == 16 && r.slotReqt == 0
  {
    var f := Frame(t, s.anchor.me, [Acpt(16), Map(s.anchor.OwnMap())]);
    hide BeaconOther, HeldOk;
    TagHears(s.tags[t], s.anchor.me, f, 0.0);
  }

  /** A loud beacon gives the slot to the tag that asked for it. */
  lemma TagGets16(P: Sys -> bool, s: Sys, t: nat) returns (b: Sys)
    requires Closed(P) && P(s) && Inv(s) && t in s.tags
    requires s.tags[t].slotReqt == 16 == s.anchor.slotReqt && s.anchor.slotReqtAddr == t
    requires s.anchor.slotIdx == MASTER_SLOT && 16 !in s.anchor.OwnMap()
    ensures P(b) && Inv(b) && Granted16(s, b, t)
  {
    hide Closed, Inv, BeaconOther, BeaconMine, Granted16, AfterBeacon, AnchorOk;
    InvTyped(s);
    Hears16(s, t);
    BeaconGrants16(s, t, BeaconOther(s.tags[t], MASTER_SLOT, Some(Rx(Frame(t, s.anchor.me, [Acpt(16), Map(s.anchor.OwnMap())]), 0.0))));
    ReachBeacon(P, s, map[t := 0.0]);
    var (a, tx) := BeaconMine(s.anchor, true);
    b := AfterBeacon(s, a, tx, map[t := 0.0]);
  }

  /** The tag's row expires, and the anchor takes the slot back. */
  lemma SlotExpires(P: Sys -> bool, s: Sys, t: nat) returns (b: Sys)
    requires Closed(P) && P(s) && Inv(s) && HoldsCurrent(s, t) && s.tags[t].slotIdx == 16
    requires s.anchor.slotReqt == 0 && s.anchor.nodes[MASTER_SLOT].timeout == 0 && s.anchor.nodes[16].timeout == ANCHOR_TIMEOUT
    ensures P(b) && Inv(b) && b.tags == s.tags && b.held == s.held && b.clears[16] == s.clears[16] + 1
    ensures b.anchor.slotIdx == MASTER_SLOT && b.anchor.slotReqt == 0 && 16 !in b.anchor.OwnMap()
  {
    assert HeldOk(s, t);
    SuperframeAgesRows(s.anchor);
    ReachTick(P, s);
    b := WithAnchor(s, Superframe(s.anchor));
  }

  /**
   * Two tags can hold one slot, in a run in which no tag ever loses the anchor: every predicate that
   * contains the reachable states contains such a state.
   */
  lemma SlotCanBeShared(P: Sys -> bool) returns (s: Sys)
    requires Closed(P)
    ensures P(s) && Inv(s) && s.tags.Keys == {2, 3}
    ensures s.tags[2].slotIdx == s.tags[3].slotIdx == 16 && !HoldsCurrent(s, 2) && HoldsCurrent(s, 3)
  {
    s := IdleFor(P, ANCHOR_TIMEOUT);
    s := FreshTagAsks(P, s, 2);
    s := TagGets16(P, s, 2);
    s := SlotExpires(P, s, 2);
    assert s.held[2] == Grant(16, s.clears[16] - 1);
    s := FreshTagAsks(P, s, 3);
    s := TagGets16(P, s, 3);
  }

  ghost predicate ReachedBy(s0: Sys, s: Sys, es: seq<Event>, strict: bool) {
    WellTyped(s0) && CanRun(s0, es, strict) && Run(s0, es, strict) == s
  }

  lemma {:induction false} RunSnoc(s: Sys, es: seq<Event>, e: Event, strict: bool)
    requires WellTyped(s) && CanRun(s, es, strict) && Enabled(Run(s, es, strict), e, strict)
    ensures CanRun(s, es + [e], strict) && Run(s, es + [e], strict) == Next(Run(s, es, strict), e, strict)
    decreases |es|
  {
    hide Next;
    if es != [] {
      assert (es + [e])[1..] == es[1..] + [e];
      RunSnoc(Next(s, es[0], strict), es[1..], e, strict);
    } else {
      assert (es + [e])[1..] == [];
    }
  }

  lemma ReachedStep(s0: Sys, s: Sys, es: seq<Event>, e: Event, strict: bool)
    requires WellTyped(s) && ReachedBy(s0, s, es, strict) && Enabled(s, e, strict)
    ensures ReachedBy(s0, Next(s, e, strict), es + [e], strict)
  {
    RunSnoc(s0, es, e, strict);
  }

  ghost predicate Reached(s: Sys) {
    exists es :: ReachedBy(Start(), s, es, true)
  }

  lemma ReachedIsClosed()
    ensures Closed(s => Reached(s))
  {
    assert ReachedBy(Start(), Start(), [], true);
    assert Reached(Start());
    forall s, e | Inv(s) && Reached(s) && Enabled(s, e, true)
      ensures Reached(Next(s, e, true))
    {
      var es :| ReachedBy(Start(), s, es, true);
      ReachedStep(Start(), s, es, e, true);
    }
  }

  /** The run itself. */
  lemma SlotSharedByARun() returns (es: seq<Event>)
    ensures Init(Start()) && CanRun(Start(), es, true)
    ensures var s := Run(Start(), es, true); s.tags.Keys == {2, 3} && s.tags[2].slotIdx == s.tags[3].slotIdx == 16
  {
    ReachedIsClosed();
    var s := SlotCanBeShared(s => Reached(s));
    es :| ReachedBy(Start(), s, es, true);
  }
}
