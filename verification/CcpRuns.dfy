/** What the clock calibration functions amount to over whole runs and along relay chains. */
module CcpRuns {
  import opened Prelude
  import opened Ccp

  // -------------------------------------------------- validity over slave runs

  datatype Received = Received(frame: Blink, rx: nat)

  ghost function Listen(c: Clock, threshold: nat, run: seq<Received>): Clock
    decreases |run|
  {
    if run == [] then c
    else
      var n := |run| - 1;
      Receive(Listen(c, threshold, run[..n]), threshold, run[n].frame, run[n].rx)
  }

  /** Frame i comes from the same master as frame i-1, and not from before the epoch read off that frame. */
  ghost predicate Follows(run: seq<Received>, i: nat)
    requires i < |run|
  {
    && i > 0
    && run[i].frame.euid == run[i - 1].frame.euid
    && run[i].frame.timestamp >= MasterEpoch(run[i - 1].frame)
  }

  /** How many frames are needed: a threshold of one asks for two. */
  ghost function Needed(threshold: nat): nat {
    if threshold == 0 then 1 else if threshold == 1 then 2 else threshold
  }

  /** The last n frames of the run follow one another. */
  ghost predicate Unbroken(run: seq<Received>, n: nat) {
    n <= |run| && forall i :: |run| - n < i < |run| ==> Follows(run, i)
  }

  /** The length of the unbroken sequence the run ends with. */
  ghost function Streak(run: seq<Received>): nat
    decreases |run|
  {
    if run == [] then 0
    else if Follows(run, |run| - 1) then Streak(run[..|run| - 1]) + 1
    else 1
  }

  lemma {:induction false} StreakIsUnbroken(run: seq<Received>, n: nat)
    requires run != []
    ensures n <= Streak(run) <==> Unbroken(run, n)
    decreases n
  {
    var m := |run| - 1;
    forall i: nat | i < m ensures Follows(run, i) <==> Follows(run[..m], i) {
    }
    if n > 1 && Follows(run, m) {
      StreakIsUnbroken(run[..m], n - 1);
      if Unbroken(run[..m], n - 1) {
        forall i | |run| - n < i < |run| ensures Follows(run, i) {
          if i < m { assert Follows(run[..m], i); }
        }
      }
      if Unbroken(run, n) {
        forall i | m - (n - 1) < i < m ensures Follows(run[..m], i) { assert Follows(run, i); }
      }
    } else if n > 1 && n <= |run| {
      assert !Follows(run, |run| - 1);
    }
  }

  /** The clock's own bookkeeping: the count follows the streak as far as three bits and the threshold let it. */
  ghost predicate Tracks(c: Clock, threshold: nat, streak: nat) {
    && streak > 0
    && (1 <= threshold <= 8 ==> c.validCount == if streak < threshold then streak - 1 else threshold - 1)
    && (threshold > 8 ==> c.validCount < 8)
    && (c.valid <==> threshold <= 8 && Needed(threshold) <= streak)
  }

  lemma ReceiveTracks(c: Clock, threshold: nat, streak: nat, f: Blink, rx: nat)
    requires Continues(c, f) ==> Tracks(c, threshold, streak)
    ensures Tracks(Receive(c, threshold, f, rx), threshold, if Continues(c, f) then streak + 1 else 1)
  {
    if Continues(c, f) && c.validCount < threshold - 1 {
      assert threshold <= 8 ==> c.validCount + 1 < 8;
    }
  }

  lemma {:induction false} CountFollowsStreak(c: Clock, threshold: nat, run: seq<Received>)
    requires run != [] && forall i :: 0 <= i < |run| ==> run[i].frame.euid != 0
    ensures var r := Listen(Restart(c), threshold, run);
      && r.masterEuid == run[|run| - 1].frame.euid && r.masterEpoch == MasterEpoch(run[|run| - 1].frame)
      && Tracks(r, threshold, Streak(run))
    decreases |run|
  {
    var m := |run| - 1;
    var before := Listen(Restart(c), threshold, run[..m]);
    if m == 0 {
      assert run[..m] == [] && before == Restart(c);
    } else {
      CountFollowsStreak(c, threshold, run[..m]);
    }
    assert Continues(before, run[m].frame) <==> Follows(run, m);
    ReceiveTracks(before, threshold, Streak(run[..m]), run[m].frame, run[m].rx);
  }

  /**
   * Since the last start, the clock is valid exactly when the last frames, as many as the threshold
   * asks for, follow one another. A threshold above eight never validates: the count has three bits.
   */
  lemma {:induction false} ValidIffUnbroken(c: Clock, threshold: nat, run: seq<Received>)
    requires forall i :: 0 <= i < |run| ==> run[i].frame.euid != 0
    ensures Listen(Restart(c), threshold, run).valid <==> threshold <= 8 && Unbroken(run, Needed(threshold))
  {
    if run != [] {
      CountFollowsStreak(c, threshold, run);
      StreakIsUnbroken(run, Needed(threshold));
    }
  }

  // ------------------------------------------------------------ relay chains

  /**
   * One relay: its address, the offset of its clock from true time, the flight time of the frame that
   * reaches it, and the time of its clock at which it sends the frame on. What follows holds for every
   * send time, hence for those that Ccp.SendTime computes.
   */
  datatype Hop = Hop(shortAddress: nat, offset: int, flight: nat, sent: nat)

  /** A frame on air, and the true time, modulo 2^40, at which it left the antenna. */
  datatype Air = Air(frame: Blink, time: int)

  ghost function Counter(time: int, offset: int): (rx: nat)
    ensures rx < POW40
  {
    (time + offset) % POW40
  }

  ghost function HopReception(a: Air, h: Hop): nat {
    Reception(a.frame, Counter(a.time + h.flight, h.offset))
  }

  /** The relay hears the frame, and sends it on when its clock reads h.sent. */
  ghost function Relayed(a: Air, h: Hop): Air {
    Air(ForwardAt(a.frame, h.shortAddress, HopReception(a, h), h.sent), (h.sent - h.offset) % POW40)
  }

  /** The delay the relay adds, as its clock counts it, and modulo 2^40. */
  ghost function Held(a: Air, h: Hop): int { h.sent - HopReception(a, h) }

  ghost function Delay(a: Air, h: Hop): nat { Held(a, h) % POW40 }

  /** One relaying: the frame heard, the frame sent, the delay added, and how often the send time wrapped past 2^40. */
  datatype Leg = Leg(heard: Air, hop: Hop, out: Air, delay: nat, wraps: int)

  ghost predicate Legal(l: Leg) {
    && l.heard.frame.rptCount < l.heard.frame.rptMax
    && l.out == Relayed(l.heard, l.hop)
    && l.delay == Delay(l.heard, l.hop)
    && l.wraps == (l.delay - Held(l.heard, l.hop)) / POW40
  }

  ghost function End(a: Air, chain: seq<Leg>): Air {
    if chain == [] then a else chain[|chain| - 1].out
  }

  /** The relays of the chain pass on, each in turn, the frame a. */
  ghost predicate IsChain(a: Air, chain: seq<Leg>) {
    forall i {:trigger Legal(chain[i])} :: 0 <= i < |chain| ==> Legal(chain[i]) && chain[i].heard == End(a, chain[..i])
  }

  lemma ChainInit(a: Air, chain: seq<Leg>)
    requires IsChain(a, chain) && chain != []
    ensures var n := |chain| - 1;
      IsChain(a, chain[..n]) && Legal(chain[n]) && chain[n].heard == End(a, chain[..n])
  {
    var n := |chain| - 1;
    assert Legal(chain[n]);
    forall i | 0 <= i < n ensures Legal(chain[..n][i]) && chain[..n][i].heard == End(a, chain[..n][..i]) {
      assert Legal(chain[i]) && chain[..n][..i] == chain[..i];
    }
  }

  ghost function TotalDelay(chain: seq<Leg>): nat {
    if chain == [] then 0 else TotalDelay(chain[..|chain| - 1]) + chain[|chain| - 1].delay
  }

  ghost function Wraps(chain: seq<Leg>): int {
    if chain == [] then 0 else Wraps(chain[..|chain| - 1]) + chain[|chain| - 1].wraps
  }

  ghost function Flights(chain: seq<Leg>): nat {
    if chain == [] then 0 else Flights(chain[..|chain| - 1]) + chain[|chain| - 1].hop.flight
  }

  /** Forwarding moves time from the interval to the timestamp, whatever the frame and the relay. */
  lemma ForwardConserves(f: Blink, shortAddress: nat, reception: nat, sent: nat)
    ensures var g := ForwardAt(f, shortAddress, reception, sent);
      (g.timestamp + g.interval) % POW40 == (f.timestamp + f.interval) % POW40
  {
    var d := (sent - reception) % POW64;
    ModShift((f.timestamp + d) % POW64, f.timestamp + d, f.interval - d);
  }

  lemma ModShift(x: int, y: int, z: int)
    requires x == y % 0x1_0000_0000_0000_0000
    ensures (x + z % 0x100_0000_0000) % 0x100_0000_0000 == (y + z) % 0x100_0000_0000
  {
  }

  /** Frame g is frame f after relays have moved the given delay from interval to timestamp, wrapping so often. */
  ghost predicate Moved(f: Blink, g: Blink, delay: int, wraps: int) {
    && g.interval == (f.interval - delay) % POW40
    && g.timestamp == (f.timestamp + delay - wraps * POW40) % POW64
    && g.rptMax == f.rptMax && g.epochToRm == f.epochToRm && g.euid == f.euid
  }

  lemma LegMoves(l: Leg)
    requires Legal(l)
    ensures Moved(l.heard.frame, l.out.frame, l.delay, l.wraps)
    ensures l.out.frame.rptCount == l.heard.frame.rptCount + 1 <= l.heard.frame.rptMax
    ensures (l.out.frame.timestamp + l.out.frame.interval) % POW40 == (l.heard.frame.timestamp + l.heard.frame.interval) % POW40
  {
    ShiftBy(l.heard.frame.interval, l.heard.frame.timestamp, Held(l.heard, l.hop));
    ForwardConserves(l.heard.frame, l.hop.shortAddress, HopReception(l.heard, l.hop), l.hop.sent);
  }

  lemma ShiftBy(interval: int, timestamp: int, held: int)
    ensures var delay := held % 0x100_0000_0000; var wraps := (delay - held) / 0x100_0000_0000;
      && (interval - held % 0x1_0000_0000_0000_0000) % 0x100_0000_0000 == (interval - delay) % 0x100_0000_0000
      && (timestamp + held % 0x1_0000_0000_0000_0000) % 0x1_0000_0000_0000_0000
           == (timestamp + delay - wraps * 0x100_0000_0000) % 0x1_0000_0000_0000_0000
  {
    ShiftInterval(interval, held);
    ShiftStamp(timestamp, held);
    Whole(held);
  }

  lemma ShiftInterval(interval: int, held: int)
    ensures (interval - held % 0x1_0000_0000_0000_0000) % 0x100_0000_0000 == (interval - held % 0x100_0000_0000) % 0x100_0000_0000
  {
    Low40(held);
    Idempotent40(held);
    Minus40(interval, held % 0x1_0000_0000_0000_0000, held % 0x100_0000_0000);
  }

  lemma Idempotent40(x: int)
    ensures x % 0x100_0000_0000 % 0x100_0000_0000 == x % 0x100_0000_0000
  {
  }

  lemma Minus40(i: int, x: int, y: int)
    requires x % 0x100_0000_0000 == y % 0x100_0000_0000
    ensures (i - x) % 0x100_0000_0000 == (i - y) % 0x100_0000_0000
  {
  }

  lemma ShiftStamp(timestamp: int, held: int)
    ensures (timestamp + held % 0x1_0000_0000_0000_0000) % 0x1_0000_0000_0000_0000 == (timestamp + held) % 0x1_0000_0000_0000_0000
  {
  }

  lemma Whole(held: int)
    ensures held == held % 0x100_0000_0000 - (held % 0x100_0000_0000 - held) / 0x100_0000_0000 * 0x100_0000_0000
  {
  }

  lemma MovedTwice(f: Blink, g: Blink, h: Blink, d: int, w: int, d': int, w': int)
    requires Moved(f, g, d, w) && Moved(g, h, d', w')
    ensures Moved(f, h, d + d', w + w')
  {
    Sum40(f.interval - d, -d');
    Sum64(f.timestamp + d - w * POW40, d' - w' * POW40);
  }

  /**
   * Along any chain of relays the sum of timestamp and interval is conserved modulo 2^40, the interval
   * loses and the timestamp gains the sum of the delays, and the repeat count stays within its bound.
   */
  lemma {:induction false} ChainConserves(a: Air, chain: seq<Leg>)
    requires a.frame.Valid() && a.frame.rptCount == 0 && IsChain(a, chain)
    ensures var z := End(a, chain).frame;
      && (z.timestamp + z.interval) % POW40 == (a.frame.timestamp + a.frame.interval) % POW40
      && Moved(a.frame, z, TotalDelay(chain), Wraps(chain))
      && z.rptCount == |chain| <= a.frame.rptMax
    decreases |chain|
  {
    if chain != [] {
      var n := |chain| - 1;
      ChainInit(a, chain);
      ChainConserves(a, chain[..n]);
      LegMoves(chain[n]);
      MovedTwice(a.frame, chain[n].heard.frame, chain[n].out.frame,
                 TotalDelay(chain[..n]), Wraps(chain[..n]), chain[n].delay, chain[n].wraps);
    } else {
      assert a.frame.timestamp % POW64 == a.frame.timestamp;
    }
  }

  // ----------------------------------------------------- the master's epoch

  /** What is missing to the next multiple of 2^32. */
  lemma RoundUp(zi: nat, rd: nat)
    requires rd == (zi / 0x1_0000_0000 + 1) * 0x1_0000_0000 - zi
    ensures 0 < rd <= 0x1_0000_0000 && (zi + rd) % 0x1_0000_0000 == 0
  {
  }

  lemma SameLow40(total: nat, rd: nat)
    requires rd < 0x100_0000_0000
    ensures (total - rd) % 0x100_0000_0000 == 0 <==> rd == total % 0x100_0000_0000
  {
  }

  /** What an interval and the delay taken from it add up to, modulo 2^32. */
  lemma AddsUp(i: int, total: int, zi: int, d: int)
    requires zi == (i - total) % 0x100_0000_0000 && d == total % 0x100_0000_0000
    ensures (zi + d) % 0x1_0000_0000 == i % 0x1_0000_0000
  {
    Low32(i - total);
    Low32(total);
    Add32(zi, i - total, d, total);
  }

  lemma Low32(x: int)
    ensures x % 0x100_0000_0000 % 0x1_0000_0000 == x % 0x1_0000_0000
  {
  }

  lemma Add32(x: int, x': int, y: int, y': int)
    requires x % 0x1_0000_0000 == x' % 0x1_0000_0000 && y % 0x1_0000_0000 == y' % 0x1_0000_0000
    ensures (x + y) % 0x1_0000_0000 == (x' + y') % 0x1_0000_0000
  {
  }

  lemma SameResidue(zi: nat, d: nat, rd: nat)
    requires 0 < d <= 0x1_0000_0000 && 0 < rd <= 0x1_0000_0000
    requires (zi + d) % 0x1_0000_0000 == (zi + rd) % 0x1_0000_0000
    ensures d == rd
  {
  }

  /** The delay a listener reads off an interval from which total has been taken: right, as far as 40 bits go, under this condition. */
  lemma RepeatDelayIs(i: nat, total: nat, zi: nat, rd: nat)
    requires zi == (i - total) % 0x100_0000_0000
    requires rd == (zi / 0x1_0000_0000 + 1) * 0x1_0000_0000 - zi
    ensures (total - rd) % 0x100_0000_0000 == 0 <==>
      i % 0x1_0000_0000 == 0 && 0 < total % 0x100_0000_0000 <= 0x1_0000_0000
    ensures (total - rd) % 0x100_0000_0000 == 0 ==> rd == total % 0x100_0000_0000
  {
    var d := total % 0x100_0000_0000;
    RoundUp(zi, rd);
    SameLow40(total, rd);
    AddsUp(i, total, zi, d);
    if i % 0x1_0000_0000 == 0 && 0 < d <= 0x1_0000_0000 {
      SameResidue(zi, d, rd);
    }
  }

  /** The interval a listener assumes: the master's, unless that is zero. */
  lemma IntervalIs(i: nat, d: nat, zi: nat)
    requires i < 0x100_0000_0000 && zi == (i - d) % 0x100_0000_0000
    requires i % 0x1_0000_0000 == 0 && 0 < d <= 0x1_0000_0000
    ensures (zi / 0x1_0000_0000 + 1) * 0x1_0000_0000 == if i == 0 then 0x100_0000_0000 else i
  {
  }

  /** The epochs agree in their low 40 bits exactly if the excess has none. */
  lemma EpochLow(direct: int, excess: int, w: int)
    ensures (direct + excess - w * 0x100_0000_0000) % 0x1_0000_0000_0000_0000 % 0x100_0000_0000 == direct % 0x100_0000_0000
      <==> excess % 0x100_0000_0000 == 0
  {
    Low40(direct + excess - w * 0x100_0000_0000);
  }

  lemma EpochOfMoved(f: Blink, z: Blink, total: nat, w: int)
    requires f.Valid() && f.rptCount == 0 && Moved(f, z, total, w) && z.rptCount != 0
    ensures MasterEpoch(z) == (MasterEpoch(f) + (total - RepeatDelay(z)) - w * POW40) % POW64
    ensures MasterEpoch(z) % POW40 == MasterEpoch(f) % POW40 <==> (total - RepeatDelay(z)) % POW40 == 0
  {
    var t, e, r := f.timestamp + total - w * POW40, EpochOffset(f), RepeatDelay(z);
    Sum64(t, -(e as int));
    Sum64(t - e, -(r as int));
    Sum64(f.timestamp - e, total - w * POW40 - r);
    EpochLow(MasterEpoch(f), total - r, w);
  }

  lemma PeriodOfMoved(f: Blink, z: Blink, total: nat, w: int)
    requires f.Valid() && f.rptCount == 0 && Moved(f, z, total, w) && z.rptCount != 0
    requires f.interval % POW32 == 0 && 0 < total % POW40 <= POW32
    ensures Period(z) == Period(f) <==> f.interval != 0
  {
    Congruent40Of(f.interval, total);
    IntervalIs(f.interval, total % POW40, z.interval);
  }

  lemma Congruent40Of(i: int, total: int)
    ensures (i - total % 0x100_0000_0000) % 0x100_0000_0000 == (i - total) % 0x100_0000_0000
  {
  }

  /**
   * A listener behind any chain of relays recovers the master's epoch, as far as 40 bits go, exactly when the
   * interval is a multiple of 2^32 and the relays together held the frame, modulo 2^40, for a positive time of
   * at most 2^32; then it recovers the period unless that is zero, and the full 64-bit epoch is off by the
   * wraps of the total delay less those of the send times.
   */
  lemma {:induction false} RelayedEpochIsMasters(a: Air, chain: seq<Leg>)
    requires a.frame.Valid() && a.frame.rptCount == 0 && IsChain(a, chain) && chain != []
    ensures var z, total := End(a, chain).frame, TotalDelay(chain);
      var readable := a.frame.interval % POW32 == 0 && 0 < total % POW40 <= POW32;
      && (MasterEpoch(z) % POW40 == MasterEpoch(a.frame) % POW40 <==> readable)
      && (readable ==>
            && (Period(z) == Period(a.frame) <==> a.frame.interval != 0)
            && MasterEpoch(z) == (MasterEpoch(a.frame) + (total / POW40 - Wraps(chain)) * POW40) % POW64)
  {
    ChainConserves(a, chain);
    var z, total, w := End(a, chain).frame, TotalDelay(chain), Wraps(chain);
    EpochOfMoved(a.frame, z, total, w);
    RepeatDelayIs(a.frame.interval, total, z.interval, RepeatDelay(z));
    hide MasterEpoch, Period, RepeatDelay, IsChain, End, TotalDelay, Wraps;
    if a.frame.interval % POW32 == 0 && 0 < total % POW40 <= POW32 {
      PeriodOfMoved(a.frame, z, total, w);
      assert total - total % POW40 - w * POW40 == (total / POW40 - w) * POW40;
    }
  }

  // --------------------------------------------------------- the local epoch

  ghost predicate Apart(x: int, y: int, q: int) { x == y + q * POW40 }

  /** x and y are the same time on a 40-bit clock. */
  ghost predicate Congruent(x: int, y: int) { exists q :: Apart(x, y, q) }

  lemma Congruent40(x: int)
    ensures Congruent(x % POW40, x)
  {
    assert Apart(x % POW40, x, -(x / POW40));
  }

  lemma Chained(x: int, y: int, z: int, c: int)
    requires Congruent(x, y + c) && Congruent(y, z)
    ensures Congruent(x, z + c)
  {
    var p, q :| Apart(x, y + c, p) && Apart(y, z, q);
    assert Apart(x, z + c, p + q);
  }

  /**
   * What the local epoch behind the chain is early by: every relay but the first counts from its already
   * corrected epoch, yet passes on the sum of all delays.
   */
  ghost function Drift(chain: seq<Leg>, epochOffset: nat): nat {
    if |chain| <= 1 then 0
    else
      var init := chain[..|chain| - 1];
      Drift(init, epochOffset) + TotalDelay(init) + epochOffset
  }

  /** Behind every relay the delay so far can be read off. */
  ghost predicate Readable(chain: seq<Leg>) {
    forall n {:trigger chain[..n]} :: 1 <= n <= |chain| ==> 0 < TotalDelay(chain[..n]) <= POW32
  }

  lemma {:induction false} ReadableInit(chain: seq<Leg>)
    requires Readable(chain) && chain != []
    ensures Readable(chain[..|chain| - 1]) && 0 < TotalDelay(chain) <= POW32
    ensures |chain| > 1 ==> TotalDelay(chain[..|chain| - 1]) > 0
  {
    var init := chain[..|chain| - 1];
    assert chain[..|chain|] == chain;
    forall n | 1 <= n <= |init| ensures 0 < TotalDelay(init[..n]) <= POW32 {
      assert init[..n] == chain[..n];
    }
  }

  /** The time a node h behind the chain counts from, on its own clock. */
  ghost function CountsFrom(a: Air, chain: seq<Leg>, h: Hop): int {
    a.time + Flights(chain) + h.flight + h.offset
    - if chain == [] then 0 else EpochOffset(a.frame) + Drift(chain, EpochOffset(a.frame))
  }

  ghost function LeavesAt(a: Air, chain: seq<Leg>): int {
    a.time + Flights(chain) + TotalDelay(chain) - Drift(chain, EpochOffset(a.frame))
  }

  lemma {:induction false} AirTime(a: Air, chain: seq<Leg>)
    requires a.frame.Valid() && a.frame.rptCount == 0 && IsChain(a, chain) && Readable(chain)
    requires a.frame.interval % POW32 == 0
    ensures Congruent(End(a, chain).time, LeavesAt(a, chain))
    decreases |chain|
  {
    if chain == [] {
      Congruent40(a.time);
      assert Apart(a.time, LeavesAt(a, chain), 0);
    } else {
      var n := |chain| - 1;
      var l := chain[n];
      ChainInit(a, chain);
      ReadableInit(chain);
      AirTime(a, chain[..n]);
      HeardAt(a, chain[..n], l.hop);
      SentAt(l, CountsFrom(a, chain[..n], l.hop), LeavesAt(a, chain));
    }
  }

  /** A relay that counts from a true time sends its frame that much plus its delay later. */
  lemma SentAt(l: Leg, from: int, leaves: int)
    requires Legal(l) && Congruent(HopReception(l.heard, l.hop), from)
    requires leaves == from - l.hop.offset + l.delay
    ensures Congruent(l.out.time, leaves)
  {
    var reception := HopReception(l.heard, l.hop);
    Congruent40(l.hop.sent - l.hop.offset);
    Congruent40(l.hop.sent - reception);
    var p :| Apart(reception, from, p);
    var q :| Apart(l.out.time, l.hop.sent - l.hop.offset, q);
    var r :| Apart(l.delay, l.hop.sent - reception, r);
    assert Apart(l.out.time, leaves, q - r + p);
  }

  /** What a node h behind the chain counts from. */
  lemma HeardAt(a: Air, chain: seq<Leg>, h: Hop)
    requires a.frame.Valid() && a.frame.rptCount == 0 && IsChain(a, chain) && Readable(chain)
    requires a.frame.interval % POW32 == 0
    requires Congruent(End(a, chain).time, LeavesAt(a, chain))
    ensures Congruent(HopReception(End(a, chain), h), CountsFrom(a, chain, h))
    ensures chain != [] ==> Congruent(LocalEpoch(End(a, chain).frame, Counter(End(a, chain).time + h.flight, h.offset)), CountsFrom(a, chain, h))
  {
    if chain == [] {
      Congruent40(a.time + h.flight + h.offset);
    } else {
      ReadableInit(chain);
      ChainConserves(a, chain);
      HeardBehind(a.frame, End(a, chain), TotalDelay(chain), Wraps(chain), LeavesAt(a, chain), h, CountsFrom(a, chain, h));
    }
  }

  lemma HeardBehind(f: Blink, z: Air, total: nat, w: int, leaves: int, h: Hop, from: int)
    requires f.Valid() && f.rptCount == 0 && f.interval % POW32 == 0
    requires Moved(f, z.frame, total, w) && z.frame.rptCount != 0 && 0 < total <= POW32
    requires Congruent(z.time, leaves) && from == leaves + h.flight + h.offset - EpochOffset(f) - total
    ensures Congruent(LocalEpoch(z.frame, Counter(z.time + h.flight, h.offset)), from)
  {
    assert RepeatDelay(z.frame) == total by {
      RepeatDelayIs(f.interval, total, z.frame.interval, RepeatDelay(z.frame));
      SameLow40(total, total);
    }
    hide LocalEpoch, RepeatDelay, Congruent, Moved;
    LocalEpochMod(z.frame, z.time + h.flight + h.offset, total);
    Congruent40(z.time + h.flight + h.offset - EpochOffset(f) - total);
    assert EpochOffset(z.frame) == EpochOffset(f) by { MovedOffset(f, z.frame, total, w); }
    Chained(LocalEpoch(z.frame, Counter(z.time + h.flight, h.offset)), z.time, leaves,
            h.flight + h.offset - EpochOffset(f) - total);
  }

  lemma MovedOffset(f: Blink, z: Blink, total: nat, w: int)
    requires Moved(f, z, total, w)
    ensures EpochOffset(z) == EpochOffset(f)
  {
  }

  lemma LocalEpochMod(z: Blink, time: int, total: nat)
    requires z.rptCount != 0 && RepeatDelay(z) == total
    ensures LocalEpoch(z, time % POW40) == (time - EpochOffset(z) - total) % POW40
  {
    Sum64(time % POW40 - EpochOffset(z), -(total as int));
    Sum40(time, -(EpochOffset(z) as int) - total);
    Low40(time % POW40 - EpochOffset(z) - total);
  }

  /**
   * The local epoch of a listener h behind a chain of relays, on its own clock: right behind one relay, and
   * early by Drift, which is positive, behind two or more.
   */
  lemma {:induction false} LocalEpochDrifts(a: Air, chain: seq<Leg>, h: Hop)
    requires a.frame.Valid() && a.frame.rptCount == 0 && IsChain(a, chain) && Readable(chain) && chain != []
    requires a.frame.interval % POW32 == 0
    ensures var z := End(a, chain);
      Congruent(LocalEpoch(z.frame, Counter(z.time + h.flight, h.offset)), CountsFrom(a, chain, h))
    ensures Drift(chain, EpochOffset(a.frame)) == 0 <==> |chain| == 1
  {
    AirTime(a, chain);
    HeardAt(a, chain, h);
    ReadableInit(chain);
  }
}
