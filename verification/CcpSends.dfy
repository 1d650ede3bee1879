/**
 * The timestamps of a master over any sequence of sends (firmware/lib/rtls_ccp/src/rtls_ccp.c):
 * how far apart they are, how the index counts, and when the wrapping index breaks the spacing.
 */
module CcpSends {
  import opened Prelude
  import opened Ccp

  // ------------------------------------------------------------- the spacing

  /** What the time really advances by from one frame to the next: the part of the antenna delay below 512 is cut off again. */
  ghost function Spacing(period: nat, antenna: nat): nat {
    period * POW16 + antenna / 512 * 512
  }

  /** Cutting the low nine bits and adding the antenna delay, for a number whose low nine bits are those of the delay. */
  lemma Recut(u: nat, antenna: nat)
    requires u % 512 == antenna % 512
    ensures u / 512 * 512 + antenna == u + antenna / 512 * 512
  {
  }

  lemma LowSum(x: int, y: int, z: int)
    requires y % 512 == 0 && z % 512 == 0
    ensures (x + y + z) % 512 == x % 512
  {
  }

  lemma Multiple(k: int)
    ensures k * 512 % 512 == 0
  {
  }

  /** The low nine bits of a timestamp are those of the antenna delay. */
  lemma StampLow(k: int, antenna: nat, ts: int)
    requires ts == (k * 512 + antenna) % 0x1_0000_0000_0000_0000
    ensures ts % 512 == antenna % 512
  {
    Low9(k * 512 + antenna);
    Multiple(k);
    LowSum(antenna, k * 512, 0);
  }

  lemma Advance(ts: nat, q: nat, p: nat, antenna: nat, v: nat, u: nat)
    requires ts % 512 == antenna % 512 && q % 512 == 0 && p % 512 == 0
    requires v == (ts + q) % 0x1_0000_0000_0000_0000 && u == (v + p) % 0x1_0000_0000_0000_0000
    ensures u == (ts + q + p) % 0x1_0000_0000_0000_0000 && u % 512 == antenna % 512
  {
    Sum64(ts + q, p);
    Low9(ts + q + p);
    LowSum(ts, q, p);
  }

  lemma Retime(x: nat, u: nat, antenna: nat)
    requires u == x % 0x1_0000_0000_0000_0000 && u % 512 == antenna % 512
    ensures (u / 512 * 512 + antenna) % 0x1_0000_0000_0000_0000 == (x + antenna / 512 * 512) % 0x1_0000_0000_0000_0000
  {
    Recut(u, antenna);
    Sum64(x, antenna / 512 * 512);
  }

  /** A timestamp, moved by a multiple of 512, as the one the next frame counts from. */
  lemma StampAhead(ts: nat, q: nat, period: nat, antenna: nat)
    requires ts % 512 == antenna % 512 && q % 512 == 0
    ensures Stamp((ts + q) % POW64, period, antenna) == (ts + q + Spacing(period, antenna)) % POW64
  {
    var p := period * POW16;
    assert p == period * 128 * 512;
    Multiple(period * 128);
    var v := (ts + q) % POW64;
    var u := (v + p) % POW64;
    Advance(ts, q, p, antenna, v, u);
    Retime(ts + q + p, u, antenna);
  }

  /** From one frame to the next the timestamp advances by the spacing; counting from a period later, by a period more. */
  lemma StampSpacing(prev: nat, period: nat, antenna: nat)
    ensures var ts := Stamp(prev, period, antenna);
      && Stamp(ts, period, antenna) == (ts + Spacing(period, antenna)) % POW64
      && Stamp((ts + period * POW16) % POW64, period, antenna) == (ts + period * POW16 + Spacing(period, antenna)) % POW64
  {
    var ts := Stamp(prev, period, antenna);
    StampLow((prev + period * POW16) % POW64 / 512, antenna, ts);
    assert period * POW16 == period * 128 * 512;
    Multiple(period * 128);
    hide Stamp, Spacing;
    StampAhead(ts, 0, period, antenna);
    StampAhead(ts, period * POW16, period, antenna);
    assert (ts + 0) % POW64 == ts;
  }

  /** The spacing is the interval the frame advertises exactly when the antenna delay is below 512 and the interval fits 40 bits. */
  lemma SpacingIsAdvertised(period: nat, antenna: nat)
    ensures Spacing(period, antenna) == period * POW16 % POW40 <==> antenna < 512 && period * POW16 < POW40
  {
    Parts(period * POW16, antenna);
  }

  lemma Parts(p: nat, antenna: nat)
    ensures p + antenna / 512 * 512 == p % 0x100_0000_0000 <==> antenna < 512 && p < 0x100_0000_0000
  {
  }

  // ------------------------------------------------------------------- runs

  /** The ring after a sequence of sends. */
  ghost function AfterSends(m: Ring, os: seq<Outcome>): (m': Ring)
    requires m.Valid()
    ensures m'.Valid()
    decreases |os|
  {
    if os == [] then m else AfterSends(AfterSend(m, os[0]), os[1..])
  }

  /** The sends that advance the index. */
  ghost function Sent(os: seq<Outcome>): nat {
    if os == [] then 0 else (if os[0] == Aborted then 0 else 1) + Sent(os[1..])
  }

  /** The timestamps of these sends. */
  ghost function Stamps(m: Ring, os: seq<Outcome>): (ts: seq<nat>)
    requires m.Valid()
    ensures |ts| == Sent(os)
    decreases |os|
  {
    if os == [] then []
    else
      var rest := Stamps(AfterSend(m, os[0]), os[1..]);
      if os[0] == Aborted then rest else [NextTs(m)] + rest
  }

  /** The 64-bit clock a step after t. */
  ghost function Later(t: nat, step: nat): nat {
    (t + step) % POW64
  }

  /** Each timestamp is one step after the one before. */
  ghost predicate Evenly(ts: seq<nat>, step: nat) {
    forall i, j :: 0 <= i < j < |ts| && j == i + 1 ==> ts[j] == Later(ts[i], step)
  }

  lemma CountUp(idx: nat, next: nat, n: nat)
    requires idx < 0x1_0000 && next == if idx + 1 < 0x1_0000 then idx + 1 else 0
    ensures (next + n) % 0x1_0000 == (idx + 1 + n) % 0x1_0000
  {
  }

  /** The index counts the sends that were not broken off. */
  lemma {:induction false} IndexCounts(m: Ring, os: seq<Outcome>)
    requires m.Valid()
    ensures AfterSends(m, os).idx == (m.idx + Sent(os)) % POW16
    decreases |os|
  {
    if os != [] {
      var m1 := AfterSend(m, os[0]);
      IndexAfter(m, os[0]);
      hide AfterSend;
      if os[0] != Aborted {
        CountUp(m.idx, m1.idx, Sent(os[1..]));
      }
      IndexCounts(m1, os[1..]);
    } else {
      assert m.idx % 0x1_0000 == m.idx;
    }
  }

  /** A send that is broken off leaves no trace in the timestamps: the next one repeats its timestamp. */
  lemma {:induction false} AbortIsRepeated(m: Ring, os: seq<Outcome>)
    requires m.Valid()
    ensures NextTs(AfterSend(m, Aborted)) == NextTs(m)
    ensures Stamps(AfterSend(m, Aborted), os) == Stamps(m, os)
  {
    RingStep(m.idx, |m.frames|);
    hide Stamp, Advertised, PeriodOf;
    var m1 := AfterSend(m, Aborted);
    assert m1.Prev() == m.Prev() && Prepared(m1) == Prepared(m) == m1.frames;
    if os != [] {
      if os[0] == Aborted {
        assert AfterSend(m1, Aborted) == m1;
      } else {
        assert AfterSend(m1, os[0]) == AfterSend(m, os[0]);
      }
    }
  }

  // ----------------------------------------------- the spacing of a whole run

  ghost function Step(m: Ring): nat {
    Spacing(m.period, m.antenna)
  }

  /** The timestamps of the run are next, and from there on evenly spaced. */
  ghost predicate Paced(m: Ring, os: seq<Outcome>, next: nat, step: nat)
    requires m.Valid()
    decreases |os|
  {
    if os == [] then true
    else if os[0] == Aborted then Paced(AfterSend(m, os[0]), os[1..], next, step)
    else NextTs(m) == next && Paced(AfterSend(m, os[0]), os[1..], Later(next, step), step)
  }

  /** A sequence is evenly spaced from t on: empty, or t and then the rest one step later. */
  ghost predicate From(t: nat, ts: seq<nat>, step: nat) {
    ts == [] || (ts[0] == t && Evenly(ts, step))
  }

  lemma EvenlyCons(t: nat, ts: seq<nat>, step: nat)
    ensures From(t, [t] + ts, step) <==> From(Later(t, step), ts, step)
  {
    hide Later;
    var all := [t] + ts;
    assert all[0] == t;
    forall i | 0 <= i < |ts|
      ensures all[i + 1] == ts[i]
    {
    }
    if From(Later(t, step), ts, step) {
      forall i, j | 0 <= i < j < |all| && j == i + 1
        ensures all[j] == Later(all[i], step)
      {
        assert all[j] == ts[i];
      }
    }
    if From(t, all, step) && ts != [] {
      assert all[1] == Later(all[0], step);
      forall i, j | 0 <= i < j < |ts| && j == i + 1
        ensures ts[j] == Later(ts[i], step)
      {
        assert all[j + 1] == Later(all[i + 1], step);
      }
    }
  }

  lemma FromHead(t: nat, u: nat, ts: seq<nat>, step: nat)
    ensures From(t, [u] + ts, step) ==> t == u
  {
  }

  lemma {:induction false} PacedIsEvenly(m: Ring, os: seq<Outcome>, next: nat, step: nat)
    requires m.Valid()
    ensures Paced(m, os, next, step) <==> From(next, Stamps(m, os), step)
    decreases |os|
  {
    if os != [] {
      var m1 := AfterSend(m, os[0]);
      hide AfterSend, NextTs, From, Later;
      if os[0] == Aborted {
        PacedIsEvenly(m1, os[1..], next, step);
      } else {
        var ts := Stamps(m1, os[1..]);
        assert Stamps(m, os) == [NextTs(m)] + ts;
        PacedIsEvenly(m1, os[1..], Later(next, step), step);
        FromHead(next, NextTs(m), ts, step);
        EvenlyCons(next, ts, step);
      }
    } else {
      assert Stamps(m, os) == [];
      hide Evenly;
    }
  }

  /** The last index before the wrap whose frame is frame 0; 2^16 when the wrap meets the ring's own. */
  ghost function Base(n: nat): (b: nat)
    requires 1 < n
  {
    POW16 - POW16 % n
  }

  /** An index from Base on is in its frame by its distance. */
  lemma FromBase(idx: nat, n: nat)
    requires 1 < n && Base(n) <= idx <= POW16 && POW16 % n != 0
    ensures idx % n == idx - Base(n)
  {
    var q := POW16 / n;
    assert q * n + POW16 % n == POW16;
    QuotientIs(idx, n, q, idx - q * n);
  }

  /** What frame 0 makes of the next timestamp at the given period. */
  ghost function FromZero(m: Ring, period: nat): nat
    requires m.Valid()
  {
    Stamp(m.frames[0].ts, period, m.antenna)
  }

  /** The clock k steps after x. */
  ghost function Steps(x: nat, k: nat, step: nat): nat {
    (x + k * step) % POW64
  }

  lemma OneMore(x: nat, k: nat, step: nat)
    ensures Later(Steps(x, k, step), step) == Steps(x, k + 1, step)
  {
    assert k * step + step == (k + 1) * step;
    Sum64(x + k * step, step);
  }

  // ------------------------------------------------------------ the period's reload

  /** A period survives the 40-bit field exactly if it is below 2^24. */
  lemma Reloaded(period: nat)
    requires period < POW32
    ensures PeriodOf(Advertised(period)) == period % POW24
    ensures PeriodOf(Advertised(period)) == period <==> period < POW24
  {
    Field(period);
    Low24(period);
  }

  lemma Field(period: nat)
    requires period < 0x1_0000_0000
    ensures period * 0x1_0000 % 0x100_0000_0000 / 0x1_0000 == period % 0x100_0000
  {
  }

  lemma Low24(period: nat)
    requires period < 0x1_0000_0000
    ensures period % 0x100_0000 % 0x1_0000_0000 == period % 0x100_0000
    ensures period % 0x100_0000 == period <==> period < 0x100_0000
    ensures period % 0x100_0000 <= period
  {
  }

  /** Where a send leads, piece by piece. */
  lemma IndexAfter(m: Ring, o: Outcome)
    requires m.Valid()
    ensures AfterSend(m, o).idx == if o == Aborted then m.idx else if m.idx + 1 < POW16 then m.idx + 1 else 0
    ensures o != Completed ==> AfterSend(m, o).period == m.period
  {
    Reduced(m.idx, (m.idx + 1) % POW16);
    hide NextTs, Advertised, PeriodOf;
  }

  /** A completed send reloads the period from the frame just sent, unless the index wraps away from it. */
  lemma ReloadsOwn(m: Ring)
    requires m.Valid() && (m.idx + 1 < POW16 || POW16 % |m.frames| == 0)
    ensures AfterSend(m, Completed).period == m.period % POW24
  {
    RingWrap(m.idx, |m.frames|);
    Reloaded(m.period);
    hide NextTs, Advertised, PeriodOf;
  }

  /** Frame 0 was written at the same period, one send before the last index that uses it. */
  ghost predicate ZeroKnown(m: Ring, period: nat)
    requires m.Valid()
  {
    m.idx >= Base(|m.frames|) ==> m.frames[0].interval == Advertised(period)
  }

  /** Which of these sends write frame 0. */
  lemma ZeroAfter(m: Ring, o: Outcome)
    requires m.Valid() && ZeroKnown(m, m.period) && (m.idx + 1 < POW16 || POW16 % |m.frames| != 0)
    ensures m.idx + 1 >= Base(|m.frames|) && (o != Aborted || m.idx >= Base(|m.frames|)) ==>
      AfterSend(m, o).frames[0].interval == Advertised(m.period)
  {
    var n := |m.frames|;
    hide NextTs, Advertised, PeriodOf;
    if m.idx >= Base(n) {
      FromBase(m.idx, n);
      FromBase(m.idx + 1, n);
      assert (m.idx + 1) % n != 0;
    } else if m.idx + 1 == Base(n) {
      BaseIsZero(n);
    }
  }

  lemma BaseIsZero(n: nat)
    requires 1 < n
    ensures Base(n) % n == 0
  {
    var q := POW16 / n;
    assert q * n + POW16 % n == POW16;
    QuotientIs(Base(n), n, q, 0);
  }

  /** At the wrap the period is reloaded from frame 0. */
  lemma ReloadsZero(m: Ring)
    requires m.Valid() && m.idx + 1 == POW16 && POW16 % |m.frames| != 0 && ZeroKnown(m, m.period)
    ensures AfterSend(m, Completed).period == m.period % POW24
  {
    IndexAfter(m, Completed);
    ZeroAfter(m, Completed);
    Reloaded(m.period);
    hide NextTs, Advertised, PeriodOf, ZeroKnown;
    assert 0 % |m.frames| == 0;
  }

  // ------------------------------------------------------------- what is known along a run

  /** Past index Base: the timestamp x sent there, whether that send was refused, and how far the clock is now. */
  ghost predicate SinceBase(m: Ring, next: nat, x: nat, refused: bool)
    requires m.Valid()
  {
    && x < POW64 && m.idx > Base(|m.frames|) && next == Steps(x, m.idx - Base(|m.frames|), Step(m))
    && FromZero(m, m.period) == if refused then (x + m.period * POW16 + Step(m)) % POW64 else x
  }

  /** The next timestamp is due, and so is what is known of frame 0. */
  ghost predicate OnPace(m: Ring, next: nat, x: nat, refused: bool)
    requires m.Valid()
  {
    && NextTs(m) == next < POW64 && ZeroKnown(m, m.period)
    && (m.idx > Base(|m.frames|) ==> SinceBase(m, next, x, refused))
  }

  /** The send leaves the period as it is. */
  ghost predicate Holds(m: Ring, o: Outcome) {
    o == Completed ==> m.period < POW24
  }

  /** Every send reloads the same value, wherever it reloads it from. */
  lemma PeriodAfter(m: Ring, o: Outcome)
    requires m.Valid() && ZeroKnown(m, m.period)
    ensures AfterSend(m, o).period == if o == Completed then m.period % POW24 else m.period
    ensures Holds(m, o) ==> AfterSend(m, o).period == m.period
  {
    if o == Completed {
      if m.idx + 1 < POW16 || POW16 % |m.frames| == 0 {
        ReloadsOwn(m);
      } else {
        ReloadsZero(m);
      }
    } else {
      IndexAfter(m, o);
    }
    Reloaded(m.period);
    hide AfterSend, ZeroKnown, Advertised, PeriodOf;
  }

  /** What the frame after is counted from, unless the index wraps away from it. */
  lemma PrevAfter(m: Ring, o: Outcome)
    requires m.Valid() && o != Aborted && (m.idx + 1 < POW16 || POW16 % |m.frames| == 0)
    ensures AfterSend(m, o).Prev() == NextTs(m)
  {
    RingStep(m.idx, |m.frames|);
    RingWrap(m.idx, |m.frames|);
    hide Stamp, Advertised, PeriodOf;
  }

  /** A send that does not go through the wrap leads on, at the spacing. */
  lemma SendOn(m: Ring, o: Outcome)
    requires m.Valid() && o != Aborted && (m.idx + 1 < POW16 || POW16 % |m.frames| == 0)
    requires AfterSend(m, o).period == m.period
    ensures NextTs(AfterSend(m, o)) == Later(NextTs(m), Step(m))
  {
    PrevAfter(m, o);
    StampSpacing(m.Prev(), m.period, m.antenna);
    hide Stamp, Spacing, AfterSend;
  }

  /** Frame 0 after a send at Base. */
  lemma SendAtBase(m: Ring, o: Outcome)
    requires m.Valid() && o != Aborted && m.idx == Base(|m.frames|)
    ensures FromZero(AfterSend(m, o), m.period) ==
      if o == StartFailed then (NextTs(m) + m.period * POW16 + Step(m)) % POW64 else NextTs(m)
  {
    FromBase(m.idx, |m.frames|);
    RingStep(m.idx, |m.frames|);
    StampSpacing(m.Prev(), m.period, m.antenna);
    hide Stamp, Spacing, Advertised, PeriodOf;
  }

  /** Frame 0 keeps its timestamp between Base and the wrap. */
  lemma SendPastBase(m: Ring, o: Outcome)
    requires m.Valid() && m.idx > Base(|m.frames|)
    ensures AfterSend(m, o).frames[0] == m.frames[0]
  {
    FromBase(m.idx, |m.frames|);
    FromBase(m.idx + 1, |m.frames|);
    hide Stamp, Advertised, PeriodOf;
  }

  /** A ring that wraps while its index does not start over with it: the next frame is counted from frame 0. */
  lemma SendThroughWrap(m: Ring, o: Outcome)
    requires m.Valid() && o != Aborted && m.idx + 1 == POW16
    ensures AfterSend(m, o).idx == 0
    ensures NextTs(AfterSend(m, o)) == FromZero(AfterSend(m, o), AfterSend(m, o).period)
  {
    IndexAfter(m, o);
    hide Stamp, AfterSend;
    assert 0 % |m.frames| == 0;
  }

  /** The flag carried along: whether the last send at Base was refused. */
  ghost function RefusedAtBase(idx: nat, n: nat, o: Outcome, refused: bool): bool
    requires 1 < n
  {
    if idx == Base(n) then o == StartFailed else refused
  }

  ghost function SentAtBase(m: Ring, next: nat, x: nat): nat
    requires m.Valid()
  {
    if m.idx == Base(|m.frames|) then next else x
  }

  /** Frame 0 and the clock after a send at Base or later. */
  lemma SendFromBase(m: Ring, o: Outcome, next: nat, x: nat, refused: bool)
    requires m.Valid() && OnPace(m, next, x, refused) && o != Aborted && m.idx >= Base(|m.frames|)
    ensures var n, x' := |m.frames|, SentAtBase(m, next, x);
      && x' < POW64 && Later(next, Step(m)) == Steps(x', m.idx + 1 - Base(n), Step(m))
      && FromZero(AfterSend(m, o), m.period) ==
           if RefusedAtBase(m.idx, n, o, refused) then (x' + m.period * POW16 + Step(m)) % POW64 else x'
  {
    var x' := SentAtBase(m, next, x);
    if m.idx == Base(|m.frames|) {
      SendAtBase(m, o);
      assert Steps(x', 0, Step(m)) == next by { NoSteps(x', Step(m)); }
    } else {
      SendPastBase(m, o);
    }
    OneMore(x', m.idx - Base(|m.frames|), Step(m));
    hide Stamp, AfterSend, Steps, Later, Spacing;
  }

  lemma NoSteps(x: nat, step: nat)
    requires x < POW64
    ensures Steps(x, 0, step) == x
  {
  }

  lemma ZeroStaysKnown(m: Ring, o: Outcome)
    requires m.Valid() && ZeroKnown(m, m.period) && m.idx + 1 < POW16
    ensures ZeroKnown(AfterSend(m, o), m.period)
  {
    ZeroAfter(m, o);
    IndexAfter(m, o);
    hide AfterSend, Advertised;
  }

  lemma SendKeepsPace(m: Ring, o: Outcome, next: nat, x: nat, refused: bool)
    requires m.Valid() && OnPace(m, next, x, refused) && o != Aborted && m.idx + 1 < POW16 && Holds(m, o)
    ensures OnPace(AfterSend(m, o), Later(next, Step(m)), SentAtBase(m, next, x), RefusedAtBase(m.idx, |m.frames|, o, refused))
  {
    PeriodAfter(m, o);
    ZeroStaysKnown(m, o);
    SendOn(m, o);
    if m.idx >= Base(|m.frames|) {
      SendFromBase(m, o, next, x, refused);
    }
    IndexAfter(m, o);
    assert Step(AfterSend(m, o)) == Step(m) && Later(next, Step(m)) < POW64;
    hide FromZero, AfterSend, NextTs, Steps, Later, Step, Base, SentAtBase, ZeroKnown, Holds;
  }

  lemma ZeroSurvivesAbort(m: Ring)
    requires m.Valid() && ZeroKnown(m, m.period)
    ensures ZeroKnown(AfterSend(m, Aborted), m.period)
  {
    IndexAfter(m, Aborted);
    if m.idx >= Base(|m.frames|) {
      ZeroAfter(m, Aborted);
    }
    hide AfterSend, Advertised;
  }

  lemma AbortKeepsPace(m: Ring, next: nat, x: nat, refused: bool)
    requires m.Valid() && OnPace(m, next, x, refused)
    ensures OnPace(AfterSend(m, Aborted), next, x, refused)
  {
    AbortIsRepeated(m, []);
    IndexAfter(m, Aborted);
    ZeroSurvivesAbort(m);
    if m.idx > Base(|m.frames|) {
      SendPastBase(m, Aborted);
    }
    hide NextTs, Stamp, Steps, Spacing, Base, AfterSend, ZeroKnown;
  }

  // ------------------------------------------------------------------- the wrap

  /** Whether the spacing survives the wrap: the index meets the ring's own, or frame 0 happens to be right. */
  ghost predicate WrapOk(n: nat, period: nat, antenna: nat, refused: bool)
    requires 1 < n
  {
    || POW16 % n == 0
    || if refused then (POW16 % n - 1) * Spacing(period, antenna) == period * POW16 else Spacing(period, antenna) == 0
  }

  lemma WrapArithmetic(x: nat, r: nat, p: nat, a: nat)
    requires x < POW64 && 0 < r < POW16 && p <= POW32 * POW16 - POW16 && a < POW16
    ensures x == Steps(x, r, p + a) <==> p + a == 0
    ensures (x + p + (p + a)) % POW64 == Steps(x, r, p + a) <==> (r - 1) * (p + a) == p
  {
    var s := p + a;
    Product(r, s);
    assert x % POW64 == x;
    WrapEqual(x, r * s, p + s, s, r);
  }

  lemma Product(r: nat, s: nat)
    requires 0 < r < POW16 && s < POW32 * POW16
    ensures r * s < POW64 - POW32 * POW16 && r * s == (r - 1) * s + s
  {
    MulMono(r, POW16 - 1, s);
  }

  lemma WrapEqual(x: nat, rs: nat, ps: nat, s: nat, r: nat)
    requires x < 0x1_0000_0000_0000_0000 && rs < 0x1_0000_0000_0000_0000 && ps < 0x1_0000_0000_0000_0000
    requires rs == r * s && r > 0
    ensures x == (x + rs) % 0x1_0000_0000_0000_0000 <==> s == 0
    ensures (x + ps) % 0x1_0000_0000_0000_0000 == (x + rs) % 0x1_0000_0000_0000_0000 <==> rs == ps
  {
    assert rs == 0 <==> s == 0;
    if x == (x + rs) % 0x1_0000_0000_0000_0000 {
      Cancel64(x, 0, rs);
    }
    if (x + ps) % 0x1_0000_0000_0000_0000 == (x + rs) % 0x1_0000_0000_0000_0000 {
      Cancel64(x, ps, rs);
    }
  }

  lemma PeriodFits(period: nat)
    requires period < POW32
    ensures period * POW16 <= POW32 * POW16 - POW16
  {
    MulMono(period, POW32 - 1, POW16);
  }

  /** What frame 0 gives against what is due, in terms of WrapOk. */
  lemma WrapDecides(x: nat, n: nat, period: nat, antenna: nat, refused: bool, due: nat, zero: nat)
    requires 1 < n < POW16 && POW16 % n != 0 && x < POW64 && period < POW32 && antenna < POW16
    requires due == Steps(x, POW16 % n, Spacing(period, antenna))
    requires zero == if refused then (x + period * POW16 + Spacing(period, antenna)) % POW64 else x
    ensures zero == due <==> WrapOk(n, period, antenna, refused)
  {
    hide Steps;
    PeriodFits(period);
    WrapArithmetic(x, POW16 % n, period * POW16, antenna / 512 * 512);
  }

  /** The first frame after the wrap is in time exactly under WrapOk. */
  lemma WrapPace(m: Ring, o: Outcome, next: nat, x: nat, refused: bool)
    requires m.Valid() && OnPace(m, next, x, refused) && o != Aborted && m.idx + 1 == POW16 && Holds(m, o)
    ensures NextTs(AfterSend(m, o)) == Later(next, Step(m)) <==>
      WrapOk(|m.frames|, m.period, m.antenna, RefusedAtBase(m.idx, |m.frames|, o, refused))
  {
    PeriodAfter(m, o);
    if POW16 % |m.frames| == 0 {
      SendOn(m, o);
      hide AfterSend, NextTs, Later, SinceBase, ZeroKnown;
    } else {
      SendFromBase(m, o, next, x, refused);
      SendThroughWrap(m, o);
      var x', refused' := SentAtBase(m, next, x), RefusedAtBase(m.idx, |m.frames|, o, refused);
      hide FromZero, AfterSend, NextTs, Steps, Later, OnPace, RefusedAtBase, SentAtBase, WrapOk, Spacing;
      WrapDecides(x', |m.frames|, m.period, m.antenna, refused', Later(next, Step(m)), FromZero(AfterSend(m, o), m.period));
    }
  }

  lemma AfterWrap(m: Ring, o: Outcome, next: nat, x: nat, refused: bool)
    requires m.Valid() && o != Aborted && m.idx + 1 == POW16 && NextTs(AfterSend(m, o)) == next < POW64
    ensures OnPace(AfterSend(m, o), next, x, refused)
  {
    IndexAfter(m, o);
    hide NextTs, FromZero, SinceBase, AfterSend, Advertised;
  }

  // --------------------------------------------- periods that do not survive the field

  /** Timestamps from one frame at two periods. */
  lemma TwoPeriods(prev: nat, period: nat, reloaded: nat, antenna: nat)
    requires reloaded <= period
    ensures Stamp(prev, period, antenna) == (Stamp(prev, reloaded, antenna) + (period - reloaded) * POW16) % POW64
  {
    var p, q := reloaded * POW16, (period - reloaded) * POW16;
    assert period * POW16 == p + q;
    assert q == (period - reloaded) * 128 * 512;
    Multiple((period - reloaded) * 128);
    var v, u := (prev + p) % POW64, (prev + p + q) % POW64;
    ShiftCut(prev + p, q, v, u);
    Sum64(v / 512 * 512 + antenna, q);
    Sum64(v / 512 * 512 + q, antenna);
    Sum64(u / 512 * 512, antenna);
  }

  /** Moving by a multiple of 512 commutes with cutting the low nine bits. */
  lemma ShiftCut(y: nat, q: nat, v: nat, u: nat)
    requires q % 512 == 0 && v == y % 0x1_0000_0000_0000_0000 && u == (y + q) % 0x1_0000_0000_0000_0000
    ensures u / 512 * 512 == (v / 512 * 512 + q) % 0x1_0000_0000_0000_0000
  {
    Sum64(y, q);
    Low9(v + q);
    LowSum(v, q, 0);
    assert u % 512 == v % 512;
    Sum64(v + q, -(v % 512));
    CutLow(u, v % 512);
  }

  lemma CutLow(u: nat, low: nat)
    requires u % 512 == low && u < 0x1_0000_0000_0000_0000
    ensures (u - low) % 0x1_0000_0000_0000_0000 == u / 512 * 512
  {
  }

  /** What a reload takes off the period. */
  ghost function Cut(period: nat): (d: nat)
    ensures d <= period * POW16
    ensures period >= POW24 ==> d > 0
  {
    MulMono(period - period % POW24, period, POW16);
    (period - period % POW24) * POW16
  }

  lemma MovedApart(late: nat, d: nat, due: nat)
    requires late < 0x1_0000_0000_0000_0000 && 0 < d < 0x1_0000_0000_0000_0000
    requires due == (late + d) % 0x1_0000_0000_0000_0000
    ensures late != due
  {
  }

  /** A clock rs past x, moved on by d, is not u past x. */
  lemma StepsApart(x: nat, rs: nat, d: nat, w: nat, u: nat)
    requires w == (x + rs) % 0x1_0000_0000_0000_0000
    requires rs + d < 0x1_0000_0000_0000_0000 && u < 0x1_0000_0000_0000_0000 && rs + d != u
    ensures (w + d) % 0x1_0000_0000_0000_0000 != (x + u) % 0x1_0000_0000_0000_0000
  {
    Sum64(x + rs, d);
    if (x + rs + d) % 0x1_0000_0000_0000_0000 == (x + u) % 0x1_0000_0000_0000_0000 {
      Cancel64(x, rs + d, u);
    }
  }

  lemma LargeProduct(r: nat, p: nat, a: nat, d: nat)
    requires 0 < r < POW16 && p <= POW32 * POW16 - POW16 && a < POW16 && 0 < d <= p
    ensures r * (p + a) + d < POW64 && 0 < r * (p + a) + d
    ensures r > 1 ==> p + (p + a) < r * (p + a) + d
  {
    var s := p + a;
    Product(r, s);
    if r > 1 {
      MulMono(1, r - 1, s);
    }
  }

  lemma LargeArithmetic(x: nat, r: nat, p: nat, a: nat, d: nat, refused: bool)
    requires x < POW64 && 0 < r < POW16 && p <= POW32 * POW16 - POW16 && a < POW16
    requires 0 < d <= p && (refused ==> r > 1)
    ensures (Steps(x, r, p + a) + d) % POW64 != if refused then (x + p + (p + a)) % POW64 else x
  {
    LargeProduct(r, p, a, d);
    var w := Steps(x, r, p + a);
    var rs := r * (p + a);
    assert w == (x + rs) % POW64;
    hide Steps;
    if refused {
      StepsApart(x, rs, d, w, p + (p + a));
    } else {
      StepsApart(x, rs, d, w, 0);
      Whole64(x);
    }
  }

  lemma Whole64(x: nat)
    requires x < 0x1_0000_0000_0000_0000
    ensures (x + 0) % 0x1_0000_0000_0000_0000 == x
  {
  }

  /** The timestamps after one frame, at the period and at the one reloaded. */
  lemma LargeStamps(prev: nat, ts: nat, period: nat, antenna: nat)
    requires POW24 <= period < POW32 && ts == Stamp(prev, period, antenna)
    ensures Stamp(ts, period % POW24, antenna) != Later(ts, Spacing(period, antenna))
  {
    StampSpacing(prev, period, antenna);
    TwoPeriods(ts, period, period % POW24, antenna);
    PeriodFits(period);
    var late, d := Stamp(ts, period % POW24, antenna), Cut(period);
    assert Later(ts, Spacing(period, antenna)) == (late + d) % POW64;
    hide Stamp, Spacing, Later, Cut;
    MovedApart(late, d, Later(ts, Spacing(period, antenna)));
  }

  /** Where the index finds the frame just sent. */
  lemma LargeOn(m: Ring, next: nat)
    requires m.Valid() && ZeroKnown(m, m.period) && m.period >= POW24 && NextTs(m) == next
    requires m.idx + 1 < POW16 || POW16 % |m.frames| == 0
    ensures NextTs(AfterSend(m, Completed)) != Later(next, Step(m))
  {
    hide Stamp, AfterSend, ZeroKnown, Spacing, Later;
    PeriodAfter(m, Completed);
    PrevAfter(m, Completed);
    LargeStamps(m.Prev(), next, m.period, m.antenna);
  }

  /** What frame 0 gives at the reloaded period, against what is due. */
  lemma LargeZero(ts: nat, x: nat, n: nat, period: nat, antenna: nat, refused: bool, due: nat)
    requires 1 < n < POW16 && POW16 % n != 0 && x < POW64 && POW24 <= period < POW32 && antenna < POW16
    requires due == Steps(x, POW16 % n, Spacing(period, antenna)) && (refused ==> POW16 % n > 1)
    requires Stamp(ts, period, antenna) == if refused then (x + period * POW16 + Spacing(period, antenna)) % POW64 else x
    ensures Stamp(ts, period % POW24, antenna) != due
  {
    TwoPeriods(ts, period, period % POW24, antenna);
    PeriodFits(period);
    var d := Cut(period);
    assert Stamp(ts, period, antenna) == (Stamp(ts, period % POW24, antenna) + d) % POW64;
    hide Stamp, Cut, Steps;
    LargeArithmetic(x, POW16 % n, period * POW16, antenna / 512 * 512, d, refused);
  }

  /** Where it wraps to frame 0. */
  lemma LargeThroughWrap(m: Ring, next: nat, x: nat, refused: bool)
    requires m.Valid() && OnPace(m, next, x, refused) && m.period >= POW24
    requires m.idx + 1 == POW16 && POW16 % |m.frames| != 0
    ensures NextTs(AfterSend(m, Completed)) != Later(next, Step(m))
  {
    var n, m1 := |m.frames|, AfterSend(m, Completed);
    var x', refused' := SentAtBase(m, next, x), RefusedAtBase(m.idx, n, Completed, refused);
    assert refused' ==> POW16 % n > 1;
    PeriodAfter(m, Completed);
    SendFromBase(m, Completed, next, x, refused);
    SendThroughWrap(m, Completed);
    hide Stamp, AfterSend, NextTs, ZeroKnown, OnPace, Later, Steps, SentAtBase, RefusedAtBase, Spacing;
    LargeZero(m1.frames[0].ts, x', n, m.period, m.antenna, refused', Later(next, Step(m)));
  }

  /** With a period of 2^24 or more the frame after a completed send is never in time. */
  lemma LargeLoses(m: Ring, next: nat, x: nat, refused: bool)
    requires m.Valid() && OnPace(m, next, x, refused) && m.period >= POW24
    ensures NextTs(AfterSend(m, Completed)) != Later(next, Step(m))
  {
    hide NextTs, AfterSend, Later, SinceBase, ZeroKnown;
    if m.idx + 1 < POW16 || POW16 % |m.frames| == 0 {
      LargeOn(m, next);
    } else {
      LargeThroughWrap(m, next, x, refused);
    }
  }

  // ---------------------------------------------------------------- the theorems

  lemma Due(m: Ring, next: nat, x: nat, refused: bool)
    requires m.Valid() && OnPace(m, next, x, refused)
    ensures NextTs(m) == next && Later(next, Step(m)) < POW64
  {
    hide NextTs, SinceBase, ZeroKnown;
  }

  /** Once the next timestamp is not the one due, the run is not evenly spaced unless it ends before the next send. */
  lemma {:induction false} OffPace(m: Ring, os: seq<Outcome>, next: nat, step: nat)
    requires m.Valid() && NextTs(m) != next
    ensures Paced(m, os, next, step) <==> Sent(os) == 0
    decreases |os|
  {
    if os != [] && os[0] == Aborted {
      AbortIsRepeated(m, []);
      hide AfterSend, NextTs;
      OffPace(AfterSend(m, Aborted), os[1..], next, step);
    }
  }

  /**
   * What decides, from the outcomes alone. Wherever another frame follows a send: if the send completed, the period
   * must fit the field, and if the index wraps there, the wrap must be one that keeps the spacing.
   */
  ghost predicate KeepsPace(n: nat, period: nat, antenna: nat, idx: nat, refused: bool, os: seq<Outcome>)
    requires 1 < n
    decreases |os|
  {
    if os == [] then true
    else if os[0] == Aborted then KeepsPace(n, period, antenna, idx, refused, os[1..])
    else
      var refused' := RefusedAtBase(idx, n, os[0], refused);
      || Sent(os[1..]) == 0
      || (&& (os[0] == Completed ==> period < POW24)
          && (idx + 1 == POW16 ==> WrapOk(n, period, antenna, refused'))
          && KeepsPace(n, period, antenna, if idx + 1 < POW16 then idx + 1 else 0, refused', os[1..]))
  }

  lemma {:induction false} NoneSent(m: Ring, os: seq<Outcome>, next: nat, step: nat)
    requires m.Valid() && Sent(os) == 0
    ensures Paced(m, os, next, step)
    decreases |os|
  {
    if os != [] {
      hide AfterSend;
      NoneSent(AfterSend(m, os[0]), os[1..], next, step);
    }
  }

  lemma {:induction false} PacedIff(m: Ring, os: seq<Outcome>, next: nat, x: nat, refused: bool)
    requires m.Valid() && OnPace(m, next, x, refused)
    ensures Paced(m, os, next, Step(m)) <==> KeepsPace(|m.frames|, m.period, m.antenna, m.idx, refused, os)
    decreases |os|
  {
    hide AfterSend, OnPace, NextTs, WrapOk, RefusedAtBase, SentAtBase, Later, Spacing;
    if os != [] {
      var m1, later := AfterSend(m, os[0]), Later(next, Step(m));
      var x', refused' := SentAtBase(m, next, x), RefusedAtBase(m.idx, |m.frames|, os[0], refused);
      Due(m, next, x, refused);
      IndexAfter(m, os[0]);
      if os[0] == Aborted {
        AbortKeepsPace(m, next, x, refused);
        PacedIff(m1, os[1..], next, x, refused);
      } else if Sent(os[1..]) == 0 {
        NoneSent(m1, os[1..], later, Step(m));
      } else if !Holds(m, os[0]) {
        LargeLoses(m, next, x, refused);
        OffPace(m1, os[1..], later, Step(m));
      } else {
        PeriodOnPace(m, os[0], next, x, refused);
        if m.idx + 1 < POW16 {
          SendKeepsPace(m, os[0], next, x, refused);
          PacedIff(m1, os[1..], later, x', refused');
        } else {
          WrapPace(m, os[0], next, x, refused);
          if NextTs(m1) == later {
            AfterWrap(m, os[0], later, x', refused');
            PacedIff(m1, os[1..], later, x', refused');
          } else {
            OffPace(m1, os[1..], later, Step(m));
          }
        }
      }
    }
  }

  lemma PeriodOnPace(m: Ring, o: Outcome, next: nat, x: nat, refused: bool)
    requires m.Valid() && OnPace(m, next, x, refused) && Holds(m, o)
    ensures AfterSend(m, o).period == m.period
  {
    PeriodAfter(m, o);
  }

  /**
   * The timestamps of any sequence of sends, completed, refused or broken off, at any period, are evenly spaced
   * exactly when every reload of the period and every wrap of the index in it keeps the spacing.
   */
  lemma {:induction false} EvenlySpaced(m: Ring, os: seq<Outcome>)
    requires m.Valid() && m.idx == 0
    ensures Evenly(Stamps(m, os), Spacing(m.period, m.antenna)) <==>
      KeepsPace(|m.frames|, m.period, m.antenna, 0, false, os)
  {
    PacedIff(m, os, NextTs(m), 0, false);
    PacedIsEvenly(m, os, NextTs(m), Step(m));
    FirstStamp(m, os);
    hide NextTs, Stamps, KeepsPace, Paced, Spacing;
  }

  lemma {:induction false} FirstStamp(m: Ring, os: seq<Outcome>)
    requires m.Valid()
    ensures Stamps(m, os) != [] ==> Stamps(m, os)[0] == NextTs(m)
    decreases |os|
  {
    if os != [] && os[0] == Aborted {
      AbortIsRepeated(m, []);
      hide AfterSend, NextTs;
      FirstStamp(AfterSend(m, Aborted), os[1..]);
    }
  }

  /** Some completed send is followed by another that advances the index. */
  ghost predicate Followed(os: seq<Outcome>) {
    exists i, j :: 0 <= i < j < |os| && os[i] == Completed && os[j] != Aborted
  }

  lemma {:induction false} SentSome(os: seq<Outcome>)
    ensures Sent(os) > 0 <==> exists j :: 0 <= j < |os| && os[j] != Aborted
    decreases |os|
  {
    if os != [] {
      SentSome(os[1..]);
      if j :| 0 <= j < |os| && os[j] != Aborted {
        assert j == 0 || os[1..][j - 1] == os[j];
      }
      if j :| 0 <= j < |os[1..]| && os[1..][j] != Aborted {
        assert os[j + 1] != Aborted;
      }
    }
  }

  lemma FollowedStep(os: seq<Outcome>)
    requires os != []
    ensures Followed(os) <==> (os[0] == Completed && Sent(os[1..]) > 0) || Followed(os[1..])
  {
    var rest := os[1..];
    SentSome(rest);
    hide Sent;
    if i, j :| 0 <= i < j < |os| && os[i] == Completed && os[j] != Aborted {
      assert rest[j - 1] == os[j];
      assert i == 0 || rest[i - 1] == os[i];
    }
    if j :| 0 <= j < |rest| && rest[j] != Aborted {
      assert os[j + 1] != Aborted;
    }
    if i, j :| 0 <= i < j < |rest| && rest[i] == Completed && rest[j] != Aborted {
      assert os[i + 1] == Completed && os[j + 1] != Aborted;
    }
  }

  lemma {:induction false} NotFollowed(os: seq<Outcome>)
    requires Sent(os) == 0
    ensures !Followed(os)
  {
    SentSome(os);
  }

  /** Where the wrap does not depend on chance, counting decides. */
  lemma {:induction false} PaceBySent(n: nat, period: nat, antenna: nat, idx: nat, refused: bool, os: seq<Outcome>)
    requires 1 < n && idx < POW16
    requires WrapOk(n, period, antenna, true) <==> WrapOk(n, period, antenna, false)
    ensures KeepsPace(n, period, antenna, idx, refused, os) <==>
      && (idx + Sent(os) <= POW16 || WrapOk(n, period, antenna, false))
      && (period < POW24 || !Followed(os))
    decreases |os|
  {
    hide WrapOk, Followed, RefusedAtBase;
    if os != [] {
      var refused' := RefusedAtBase(idx, n, os[0], refused);
      FollowedStep(os);
      if os[0] == Aborted {
        PaceBySent(n, period, antenna, idx, refused, os[1..]);
      } else {
        PaceBySent(n, period, antenna, if idx + 1 < POW16 then idx + 1 else 0, refused', os[1..]);
        if Sent(os[1..]) == 0 {
          NotFollowed(os[1..]);
        }
      }
    } else {
      NotFollowed([]);
    }
  }

  /** With a period, the only wrap that keeps the spacing by chance is one with two frames left over and no antenna delay to cut. */
  lemma WrapOkWhen(n: nat, period: nat, antenna: nat, refused: bool)
    requires 1 < n && 0 < period
    ensures WrapOk(n, period, antenna, refused) <==>
      POW16 % n == 0 || (refused && POW16 % n == 2 && antenna < 512)
  {
    var r, p, a := POW16 % n, period * POW16, antenna / 512 * 512;
    if r >= 3 {
      MulMono(2, r - 1, p + a);
    }
  }

  /**
   * A master that sends at intervals: all its timestamps are evenly spaced exactly when it sends no more frames
   * than the index counts or the length of the ring divides 2^16, and the period is below 2^24 or no completed
   * send is followed by another one.
   */
  lemma {:induction false} EvenlyUpToWrap(m: Ring, os: seq<Outcome>)
    requires m.Valid() && m.idx == 0 && 0 < m.period && (POW16 % |m.frames| != 2 || m.antenna >= 512)
    ensures Evenly(Stamps(m, os), Spacing(m.period, m.antenna)) <==>
      (Sent(os) <= POW16 || POW16 % |m.frames| == 0) && (m.period < POW24 || !Followed(os))
  {
    EvenlySpaced(m, os);
    WrapOkWhen(|m.frames|, m.period, m.antenna, true);
    WrapOkWhen(|m.frames|, m.period, m.antenna, false);
    PaceBySent(|m.frames|, m.period, m.antenna, 0, false, os);
    hide Stamps, Evenly, WrapOk, Spacing, KeepsPace, Followed;
  }

  /** A period of 2^24 is zero after the first completed send: the second frame repeats the timestamp of the first. */
  lemma ReloadBreaks()
    ensures var m := Ring([Stamped(0, 0), Stamped(0, 0)], 0, POW24, 0);
      Stamps(m, [Completed, Completed]) == [POW40, POW40] && Spacing(m.period, m.antenna) == POW40
  {
    var m := Ring([Stamped(0, 0), Stamped(0, 0)], 0, POW24, 0);
    var m1 := AfterSend(m, Completed);
    assert NextTs(m) == POW40 && Advertised(POW24) == 0;
    assert m1 == Ring([Stamped(0, 0), Stamped(POW40, 0)], 1, 0, 0);
    assert NextTs(m1) == POW40;
    var os := [Completed, Completed];
    assert os[1..] == [Completed] && os[1..][1..] == [];
    assert Stamps(m1, os[1..]) == [POW40] + Stamps(AfterSend(m1, Completed), []);
  }
}
