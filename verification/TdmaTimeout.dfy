/**
 * A run in which a superframe takes a tag away from its grant: it has timed the
 * anchor out before, and comes to use a slot that nobody granted it.
 */
module TdmaTimeout {
  import opened Prelude
  import opened Tdma
  import opened TdmaSystem
  import opened TdmaSlots
  import opened TdmaTrace

  /** P contains all states that runs of any kind can reach. */
  ghost predicate ClosedAll(P: Sys -> bool) {
    Closed(P) && forall s, e :: AnchorSide(s) && P(s) && Enabled(s, e, false) ==> P(Next(s, e, false))
  }

  lemma ReachAny(P: Sys -> bool, s: Sys, e: Event) returns (s': Sys)
    requires ClosedAll(P) && P(s) && AnchorSide(s) && Enabled(s, e, false)
    ensures s' == Next(s, e, false) && P(s') && AnchorSide(s')
  {
    s' := Next(s, e, false);
    AnyStepKeeps(s, e, false, 17);
    hide Next, AnchorSide, Enabled, Closed;
  }

  // ------------------------------------------------------- a tag that hears nothing

  lemma NobodyKnown(r: Rti)
    requires r.Valid() && !r.master && forall j :: 1 <= j <= BCN_SLOT_MAX ==> r.nodes[j].addr == 0
    ensures !AllAccepted(r)
  {
  }

  /** The rows from i on are as old as `from`, those before it, but for the first, as `to`. */
  ghost predicate Midway(r: Rti, i: nat, anchor: nat, accepted: bool, t: nat, from: nat, to: nat, reqt: nat) {
    && 2 <= i <= NSLOTS
    && r.Valid() && r.role == Tag && !r.master && r.slotIdx == 16 && r.slotReqt == reqt && r.slotReqtAddr == 0
    && r.nodes[1].addr == anchor && r.nodes[1].accepted == accepted && r.nodes[1].timeout == t
    && (forall j :: 2 <= j <= BCN_SLOT_MAX ==> r.nodes[j].addr == 0)
    && (forall j :: 2 <= j < NSLOTS ==> r.nodes[j].timeout == if j < i then to else from)
  }

  /** One row of a superframe in which the tag adopts nothing. */
  lemma MidwayStep(r: Rti, i: nat, anchor: nat, accepted: bool, t: nat, from: nat, reqt: nat)
    requires i < NSLOTS && from <= ANCHOR_TIMEOUT && (from == ANCHOR_TIMEOUT ==> anchor == 0)
    requires Midway(r, i, anchor, accepted, t, from, if from < ANCHOR_TIMEOUT then from + 1 else 0, reqt)
    ensures Midway(TickNode(r, i), i + 1, anchor, accepted, t, from, if from < ANCHOR_TIMEOUT then from + 1 else 0, reqt)
  {
    if from == ANCHOR_TIMEOUT {
      var r1 := r.(nodes := r.nodes[i := r.nodes[i].(available := false, timeout := from + 1)]);
      NobodyKnown(NodeRmv(r1, i));
    }
  }

  lemma {:induction false} MidwayOn(r: Rti, i: nat, anchor: nat, accepted: bool, t: nat, from: nat, reqt: nat)
    requires from <= ANCHOR_TIMEOUT && (from == ANCHOR_TIMEOUT ==> anchor == 0)
    requires Midway(r, i, anchor, accepted, t, from, if from < ANCHOR_TIMEOUT then from + 1 else 0, reqt)
    ensures Midway(TickFrom(r, i), NSLOTS, anchor, accepted, t, from, if from < ANCHOR_TIMEOUT then from + 1 else 0, reqt)
    decreases NSLOTS - i
  {
    if i < NSLOTS {
      hide Midway;
      MidwayStep(r, i, anchor, accepted, t, from, reqt);
      assert Midway(r, i, anchor, accepted, t, from, if from < ANCHOR_TIMEOUT then from + 1 else 0, reqt) ==> r.Valid() by {
        MidwayValid(r, i, anchor, accepted, t, from, if from < ANCHOR_TIMEOUT then from + 1 else 0, reqt);
      }
      MidwayOn(TickNode(r, i), i + 1, anchor, accepted, t, from, reqt);
    }
  }

  lemma MidwayValid(r: Rti, i: nat, anchor: nat, accepted: bool, t: nat, from: nat, to: nat, reqt: nat)
    requires Midway(r, i, anchor, accepted, t, from, to, reqt)
    ensures r.Valid() && 2 <= i <= NSLOTS
  {
  }

  /** A tag in slot 16: the anchor's row is t superframes old, every other row u. */
  ghost predicate Waits(r: Rti, anchor: nat, accepted: bool, t: nat, u: nat, reqt: nat) {
    Midway(r, 2, anchor, accepted, t, u, 0, reqt)
  }

  lemma TickYoung(r: Rti, anchor: nat, accepted: bool, t: nat, u: nat, reqt: nat)
    requires Waits(r, anchor, accepted, t, u, reqt) && t < ANCHOR_TIMEOUT && u < ANCHOR_TIMEOUT
    ensures r.Valid() && Waits(Superframe(r), anchor, accepted, t + 1, u + 1, reqt)
  {
    var r1 := TickNode(r, 1);
    MidwayOn(r1, 2, anchor, accepted, t + 1, u, reqt);
    assert TickFrom(r, 1) == TickFrom(r1, 2);
  }

  /** With the last of eleven silent superframes the tag forgets the anchor, and keeps its slot. */
  lemma TickOld(r: Rti, anchor: nat, accepted: bool, reqt: nat)
    requires Waits(r, anchor, accepted, ANCHOR_TIMEOUT, ANCHOR_TIMEOUT, reqt)
    ensures r.Valid() && Waits(Superframe(r), 0, false, 0, 0, reqt)
  {
    var t := r.(nodes := r.nodes[1 := r.nodes[1].(available := false, timeout := ANCHOR_TIMEOUT + 1)]);
    NobodyKnown(NodeRmv(t, 1));
    var r1 := TickNode(r, 1);
    assert Midway(r1, 2, 0, false, 0, ANCHOR_TIMEOUT, 0, reqt);
    MidwayOn(r1, 2, 0, false, 0, ANCHOR_TIMEOUT, reqt);
    assert TickFrom(r, 1) == TickFrom(r1, 2);
  }

  /** Once the anchor counts as having accepted the tag, any row that expires makes it take its requested slot. */
  lemma TickAdopts(r: Rti, anchor: nat, t: nat, reqt: nat)
    requires Waits(r, anchor, true, t, ANCHOR_TIMEOUT, reqt) && t < ANCHOR_TIMEOUT && anchor != 0
    requires SVC_SLOT < reqt < NSLOTS
    ensures r.Valid() && Superframe(r).slotIdx == reqt
  {
    TakesWhen(r, anchor);
    SuperframeTakes(r);
    assert Expires(r.nodes[2]);
  }

  // ------------------------------------------------------------- the run, piece by piece

  /** The anchor is up and idle, with slot 16 taken or not; tag 2 waits. */
  ghost predicate Stands(s: Sys, taken: bool, accepted: bool, known: bool, t: nat, u: nat, reqt: nat) {
    && AnchorSide(s) && 2 in s.tags && s.anchor.me != 2
    && s.anchor.slotIdx == MASTER_SLOT && s.anchor.slotReqt == 0
    && (16 in s.anchor.OwnMap() <==> taken) && 17 !in s.anchor.OwnMap()
    && (taken ==> s.anchor.nodes[16].timeout == ANCHOR_TIMEOUT && s.anchor.nodes[MASTER_SLOT].timeout == 0)
    && Waits(s.tags[2], if known then s.anchor.me else 0, accepted, t, u, reqt)
    && 2 in s.held && s.held[2].slot == 16
  }

  /** A number of superframes at the tag alone. */
  lemma {:induction false} TagTicks(P: Sys -> bool, s: Sys, taken: bool, accepted: bool, known: bool, t: nat, u: nat,
                                    reqt: nat, n: nat) returns (s': Sys)
    requires ClosedAll(P) && P(s) && Stands(s, taken, accepted, known, t, u, reqt)
    requires t + n <= ANCHOR_TIMEOUT && u + n <= ANCHOR_TIMEOUT
    ensures P(s') && Stands(s', taken, accepted, known, t + n, u + n, reqt)
    decreases n
  {
    if n == 0 {
      s' := s;
    } else {
      TickYoung(s.tags[2], if known then s.anchor.me else 0, accepted, t, u, reqt);
      var s1 := ReachAny(P, s, TagTick(2));
      assert Stands(s1, taken, accepted, known, t + 1, u + 1, reqt);
      s' := TagTicks(P, s1, taken, accepted, known, t + 1, u + 1, reqt, n - 1);
    }
  }

  /** Eleven superframes without a beacon. */
  lemma TagForgets(P: Sys -> bool, s: Sys, taken: bool, accepted: bool, reqt: nat) returns (s': Sys)
    requires ClosedAll(P) && P(s) && Stands(s, taken, accepted, true, 0, 0, reqt)
    ensures P(s') && Stands(s', taken, false, false, 0, 0, reqt)
  {
    var s1 := TagTicks(P, s, taken, accepted, true, 0, 0, reqt, ANCHOR_TIMEOUT);
    TickOld(s1.tags[2], s1.anchor.me, accepted, reqt);
    s' := ReachAny(P, s1, TagTick(2));
  }

  /** What an idle anchor sends, and that it changes nothing that matters here. */
  lemma IdleBeacon(a: Rti)
    requires AnchorOk(a) && a.slotIdx == MASTER_SLOT && a.slotReqt == 0
    ensures var (b, tx) := BeaconMine(a, true);
      && tx == Some(Frame(BROADCAST, a.me, if a.seqno % 2 == 1 then [Loca] else [Map(a.OwnMap())]))
      && AnchorOk(b) && b.me == a.me && b.slotIdx == MASTER_SLOT && b.slotReqt == 0 && b.seqno == (a.seqno + 1) % POW8
      && b.OwnMap() == a.OwnMap() && b.nodes[16] == a.nodes[16] && b.nodes[MASTER_SLOT].timeout == 0
  {
  }

  /** A tag that has forgotten the anchor takes it up again, as accepted if the anchor's map lacks its slot. */
  lemma TagRelearns(r: Rti, me: nat, u: nat, reqt: nat, sm: SlotMap)
    requires Waits(r, 0, false, 0, u, reqt) || Waits(r, 0, false, u, u, reqt)
    requires me != 0
    ensures r.Valid()
    ensures var r' := BeaconOther(r, MASTER_SLOT, Some(Rx(Frame(BROADCAST, me, [Map(sm)]), 0.0)));
      && Waits(r', me, 16 !in sm, 0, u, reqt) && r'.nodes[1].available && r'.nodes[1].slotMap == sm && r'.me == r.me
  {
    var f := Frame(BROADCAST, me, [Map(sm)]);
    var o := Identify(r, MASTER_SLOT, Rx(f, 0.0));
    assert o == Some(r);
    var r1 := MarkAlive(r, MASTER_SLOT);
    var r2 := Absorb(r1, MASTER_SLOT, me, Map(sm));
    assert AbsorbAll(r1, MASTER_SLOT, f, 0) == AbsorbAll(r2, MASTER_SLOT, f, 1) == r2;
  }

  /** A beacon that no tag hears. */
  lemma Unheard(P: Sys -> bool, s: Sys, taken: bool, t: nat, u: nat, reqt: nat) returns (s': Sys)
    requires ClosedAll(P) && P(s) && Stands(s, taken, false, false, t, u, reqt)
    ensures P(s') && Stands(s', taken, false, false, t, u, reqt) && s'.anchor.seqno == (s.anchor.seqno + 1) % POW8
  {
    IdleBeacon(s.anchor);
    hide BeaconMine;
    s' := ReachAny(P, s, AnchorBeacon(true, map[]));
    assert s'.tags == s.tags;
  }

  /** The tag hears a beacon with a slot map. */
  lemma HearsThis(P: Sys -> bool, s: Sys, taken: bool, u: nat, reqt: nat) returns (s': Sys)
    requires ClosedAll(P) && P(s) && Stands(s, taken, false, false, u, u, reqt) && s.anchor.seqno % 2 == 0
    ensures P(s') && Stands(s', taken, !taken, true, 0, u, reqt)
    ensures s'.tags[2].nodes[1].available && s'.tags[2].nodes[1].slotMap == s'.anchor.OwnMap()
  {
    IdleBeacon(s.anchor);
    TagRelearns(s.tags[2], s.anchor.me, u, reqt, s.anchor.OwnMap());
    hide BeaconMine, BeaconOther, Waits;
    s' := ReachAny(P, s, AnchorBeacon(true, map[2 := 0.0]));
  }

  /** It hears the next one there is. */
  lemma HearsMap(P: Sys -> bool, s: Sys, taken: bool, u: nat, reqt: nat) returns (s': Sys)
    requires ClosedAll(P) && P(s) && Stands(s, taken, false, false, u, u, reqt)
    ensures P(s') && Stands(s', taken, !taken, true, 0, u, reqt)
    ensures s'.tags[2].nodes[1].available && s'.tags[2].nodes[1].slotMap == s'.anchor.OwnMap()
  {
    var s1 := s;
    if s.anchor.seqno % 2 == 1 {
      s1 := Unheard(P, s, taken, u, u, reqt);
    }
    s' := HearsThis(P, s1, taken, u, reqt);
  }

  /** The tag asks for the next free slot, and nobody hears it. */
  lemma Asks17(P: Sys -> bool, s: Sys) returns (s': Sys)
    requires ClosedAll(P) && P(s) && Stands(s, true, false, true, 0, 0, 0)
    requires s.tags[2].nodes[1].available && s.tags[2].nodes[1].slotMap == s.anchor.OwnMap()
    ensures P(s') && Stands(s', true, false, true, 0, 0, 17)
  {
    var r := s.tags[2];
    assert Known(r, 1) && !AllAccepted(r);
    assert !Free(r, 16) && Free(r, 17);
    assert LeastFree(r, 16) == LeastFree(r, 17) == 17;
    s' := ReachAny(P, s, TagService(2, true, false));
  }

  /** The anchor takes slot 16 back. */
  lemma AnchorDrops(P: Sys -> bool, s: Sys, reqt: nat) returns (s': Sys)
    requires ClosedAll(P) && P(s) && Stands(s, true, false, false, 0, 0, reqt)
    ensures P(s') && Stands(s', false, false, false, 0, 0, reqt)
  {
    SuperframeAgesRows(s.anchor);
    AnchorTickRevokes(s.anchor, 1);
    assert Superframe(s.anchor).me == s.anchor.me;
    hide Superframe, Waits;
    s' := ReachAny(P, s, AnchorTick);
  }

  /** The tag is granted slot 16, the anchor's rows being ten superframes old. */
  lemma Gets16(P: Sys -> bool, s: Sys) returns (s': Sys)
    requires ClosedAll(P) && P(s) && Inv(s) && 2 in s.tags && s.anchor.me != 2
    requires s.tags[2] == Fresh(Tag, false, 2).(seqno := 1, slotReqt := 16)
    requires s.anchor.slotReqt == 16 && s.anchor.slotReqtAddr == 2 && s.anchor.slotIdx == MASTER_SLOT
    requires s.anchor.OwnMap() == {0, 1} && s.anchor.nodes[16].timeout == ANCHOR_TIMEOUT
    ensures P(s') && Stands(s', true, true, true, 0, 0, 0)
  {
    TagIsGranted(s.tags[2], s.anchor.me);
    Hears16(s, 2);
    BeaconGrants16(s, 2, BeaconOther(s.tags[2], MASTER_SLOT, Some(Rx(Frame(2, s.anchor.me, [Acpt(16), Map({0, 1})]), 0.0))));
    var (a, tx) := BeaconMine(s.anchor, true);
    Concedes16(s.anchor);
    OneHears(s, a, tx.value, 2, BeaconOther(s.tags[2], MASTER_SLOT, Some(Rx(tx.value, 0.0))));
    hide BeaconMine, BeaconOther, Waits, Inv, TagOk, Fresh, AfterBeacon, ClosedAll, AnchorOk;
    s' := ReachAny(P, s, AnchorBeacon(true, map[2 := 0.0]));
    BeaconNames(s.anchor);
  }

  lemma BeaconNames(a: Rti)
    requires AnchorOk(a) && a.slotIdx == MASTER_SLOT
    ensures BeaconMine(a, true).0.me == a.me
  {
  }

  lemma TagIsGranted(r: Rti, me: nat)
    requires r == Fresh(Tag, false, 2).(seqno := 1, slotReqt := 16) && me != 0 && me != 2
    ensures r.Valid()
    ensures Waits(BeaconOther(r, MASTER_SLOT, Some(Rx(Frame(2, me, [Acpt(16), Map({0, 1})]), 0.0))), me, true, 0, 0, 0)
  {
    var f := Frame(2, me, [Acpt(16), Map({0, 1})]);
    var o := Identify(r, MASTER_SLOT, Rx(f, 0.0));
    var r1 := MarkAlive(o.value, MASTER_SLOT);
    var accepted := r1.(nodes := r1.nodes[1 := r1.nodes[1].(accepted := true)]);
    assert Known(accepted, 1) && AllAccepted(accepted);
    var r2 := Absorb(r1, MASTER_SLOT, me, Acpt(16));
    var r3 := Absorb(r2, MASTER_SLOT, me, Map({0, 1}));
    assert AbsorbAll(r1, MASTER_SLOT, f, 0) == AbsorbAll(r2, MASTER_SLOT, f, 1) == AbsorbAll(r3, MASTER_SLOT, f, 2) == r3;
  }

  lemma TagAdopts(P: Sys -> bool, s: Sys) returns (s': Sys)
    requires ClosedAll(P) && P(s) && Stands(s, false, true, true, ANCHOR_TIMEOUT - 1, ANCHOR_TIMEOUT, 17)
    ensures P(s') && 2 in s'.tags && s'.tags[2].slotIdx == 17 && 2 in s'.held && s'.held[2].slot == 16
  {
    TickAdopts(s.tags[2], s.anchor.me, ANCHOR_TIMEOUT - 1, 17);
    hide Superframe, Waits;
    s' := ReachAny(P, s, TagTick(2));
  }

  /** The tag is granted slot 16, forgets the anchor, finds 16 taken, and asks for 17. */
  lemma AsksAgain(P: Sys -> bool) returns (s: Sys)
    requires ClosedAll(P)
    ensures P(s) && Stands(s, true, false, true, 0, 0, 17)
  {
    s := IdleFor(P, ANCHOR_TIMEOUT);
    s := FreshTagAsks(P, s, 2);
    s := Gets16(P, s);
    hide Stands, ClosedAll, AnchorSide, Inv;
    s := TagForgets(P, s, true, true, 0);
    s := HearsMap(P, s, true, 0, 0);
    s := Asks17(P, s);
  }

  /** It forgets the anchor again, which drops slot 16, so that the next map says accepted; then another row expires. */
  lemma TakesUnasked(P: Sys -> bool, s0: Sys) returns (s: Sys)
    requires ClosedAll(P) && P(s0) && Stands(s0, true, false, true, 0, 0, 17)
    ensures P(s) && 2 in s.tags && s.tags[2].slotIdx == 17 && 2 in s.held && s.held[2].slot == 16
  {
    hide Stands, ClosedAll, AnchorSide, Inv;
    s := TagForgets(P, s0, true, false, 17);
    s := AnchorDrops(P, s, 17);
    s := TagTicks(P, s, false, false, false, 0, 0, 17, 1);
    s := HearsMap(P, s, false, 1, 17);
    s := TagTicks(P, s, false, true, true, 0, 1, 17, 9);
    s := TagAdopts(P, s);
  }

  /** Slot 16 is granted, forgotten by both sides, and then slot 17, asked for but never granted, is taken. */
  lemma SlotWithoutGrant(P: Sys -> bool) returns (s: Sys)
    requires ClosedAll(P)
    ensures P(s) && 2 in s.tags && s.tags[2].slotIdx == 17 && 2 in s.held && s.held[2].slot == 16
  {
    s := AsksAgain(P);
    s := TakesUnasked(P, s);
  }

  ghost predicate ReachedAny(s: Sys) {
    exists es :: ReachedBy(Start(), s, es, false)
  }

  lemma ReachedAnyIsClosed()
    ensures ClosedAll(s => ReachedAny(s))
  {
    assert ReachedBy(Start(), Start(), [], false);
    forall s, e | AnchorSide(s) && ReachedAny(s) && Enabled(s, e, false)
      ensures ReachedAny(Next(s, e, false))
    {
      var es :| ReachedBy(Start(), s, es, false);
      ReachedStep(Start(), s, es, e, false);
    }
    forall s, e | Inv(s) && ReachedAny(s) && Enabled(s, e, true)
      ensures ReachedAny(Next(s, e, true))
    {
      var es :| ReachedBy(Start(), s, es, false);
      ReachedStep(Start(), s, es, e, false);
      assert Next(s, e, true) == Next(s, e, false);
    }
  }

  /** The run itself; a superframe of it takes the tag away from its last grant. */
  lemma UngrantedSlotByARun() returns (es: seq<Event>)
    ensures Init(Start()) && CanRun(Start(), es, false) && !NeverLeaves(Start(), es)
    ensures var s := Run(Start(), es, false);
      2 in s.tags && s.tags[2].slotIdx == 17 && 2 in s.held && s.held[2].slot == 16
  {
    ReachedAnyIsClosed();
    var s := SlotWithoutGrant(s => ReachedAny(s));
    es :| ReachedBy(Start(), s, es, false);
    if NeverLeaves(Start(), es) {
      SlotsAreExclusive(Start(), es, 2, 2);
    }
  }
}
