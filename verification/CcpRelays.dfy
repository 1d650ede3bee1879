/** When a relay sends a frame on, and what the listeners behind relays read off it. */
module CcpRelays {
  import opened Prelude
  import opened Ccp
  import opened CcpRuns

  // -------------------------------------------------------- the time of sending

  /** How long a relay holds a frame relayed rptCount times before: a holdoff for each relaying, a blink for each slot. */
  ghost function Hold(r: Relay, rptCount: nat): nat {
    (rptCount + 1) * r.holdoff * 0x1_0000 + r.slot % 4 * r.blink * 0x1_0000
  }

  /** When the radio starts: the antenna delay comes after that. */
  ghost function Start(r: Relay, f: Blink, reception: nat): int {
    SendTime(r, f, reception) - r.antenna
  }

  lemma Products(r: Relay, rptCount: nat)
    ensures (rptCount + 1) * (r.holdoff * 0x1_0000) + r.slot % 4 * (r.blink * 0x1_0000) == Hold(r, rptCount)
  {
    Associates(rptCount + 1, r.holdoff);
    Associates(r.slot % 4, r.blink);
  }

  lemma Associates(x: nat, y: nat)
    ensures x * (y * 0x1_0000) == x * y * 0x1_0000
  {
  }

  lemma StartIs(r: Relay, f: Blink, reception: nat)
    ensures Start(r, f, reception) == (reception + Hold(r, f.rptCount)) % 0x100_0000_0000 / 512 * 512
  {
    Products(r, f.rptCount);
  }

  lemma Rounded(due: nat, start: int)
    requires start == due % 0x100_0000_0000 / 512 * 512
    ensures start % 512 == 0 && start == due % 0x100_0000_0000 - due % 512
    ensures due < 0x100_0000_0000 ==> start == due - due % 512
  {
  }

  /** The radio starts at the last multiple of 512 that is not after the hold time, on a 40-bit clock. */
  lemma RelaySendsAfterHold(r: Relay, f: Blink, reception: nat)
    ensures var due, start := reception + Hold(r, f.rptCount), SendTime(r, f, reception) - r.antenna;
      && start % 512 == 0
      && due % POW40 - 511 <= start <= due % POW40
      && (due < POW40 ==> due - 511 <= start <= due)
  {
    StartIs(r, f, reception);
    assert Start(r, f, reception) == SendTime(r, f, reception) - r.antenna;
    hide Hold, Start, SendTime;
    Rounded(reception + Hold(r, f.rptCount), Start(r, f, reception));
  }

  /** How many blinks r' sends after r. */
  ghost function SlotsBetween(r: Relay, r': Relay): int { (r'.slot % 4 - r.slot % 4) * r.blink }

  lemma ShiftedHold(r: Relay, r': Relay, rptCount: nat)
    requires r'.holdoff == r.holdoff && r'.blink == r.blink
    ensures Hold(r', rptCount) == Hold(r, rptCount) + SlotsBetween(r, r') * 0x1_0000
  {
    assert r'.slot % 4 * r.blink == r.slot % 4 * r.blink + SlotsBetween(r, r');
  }

  lemma Shifted(x: nat, y: nat, blinks: int, start: int, start': int)
    requires y == x + blinks * 0x1_0000 && x < 0x100_0000_0000 && y < 0x100_0000_0000
    requires start == x % 0x100_0000_0000 / 512 * 512 && start' == y % 0x100_0000_0000 / 512 * 512
    ensures start' - start == blinks * 0x1_0000
  {
    Rounded(x, start);
    Rounded(y, start');
    assert y % 512 == x % 512 by { SameLow9(x, blinks * 128); }
  }

  lemma SameLow9(x: int, n: int)
    ensures (x + n * 512) % 512 == x % 512
  {
  }

  /** Relays that count from the same time send as many blinks apart as their slots, modulo four, differ. */
  lemma SlotsKeepApart(r: Relay, r': Relay, f: Blink, reception: nat)
    requires r'.holdoff == r.holdoff && r'.blink == r.blink
    requires reception + Hold(r, f.rptCount) < POW40 && reception + Hold(r', f.rptCount) < POW40
    ensures (SendTime(r', f, reception) - r'.antenna) - (SendTime(r, f, reception) - r.antenna)
      == (r'.slot % 4 - r.slot % 4) * r.blink * POW16
  {
    StartIs(r, f, reception);
    StartIs(r', f, reception);
    ShiftedHold(r, r', f.rptCount);
    assert SlotsBetween(r, r') == (r'.slot % 4 - r.slot % 4) * r.blink;
    hide Hold, SendTime, SlotsBetween;
    Shifted(reception + Hold(r, f.rptCount), reception + Hold(r', f.rptCount), SlotsBetween(r, r'),
            Start(r, f, reception), Start(r', f, reception));
  }

  // ------------------------------------------------------------- the delay of a hop

  /** The relay r sends the frame of the leg. */
  ghost predicate SentBy(l: Leg, r: Relay) {
    && Legal(l)
    && l.hop.shortAddress == r.shortAddress
    && l.hop.sent == SendTime(r, l.heard.frame, HopReception(l.heard, l.hop))
  }

  lemma HeldFor(reception: nat, hold: nat, antenna: nat, start: int)
    requires start == (reception + hold) % 0x100_0000_0000 / 512 * 512
    requires 511 <= hold + antenna < 0x100_0000_0000
    ensures (start + antenna - reception) % 0x100_0000_0000 == hold + antenna - (reception + hold) % 512
  {
    Rounded(reception + hold, start);
    var low := (reception + hold) % 512;
    var wraps := (reception + hold) / 0x100_0000_0000;
    assert start + antenna - reception == hold + antenna - low - wraps * 0x100_0000_0000;
    Unwrapped(hold + antenna - low, wraps);
  }

  lemma Unwrapped(x: nat, wraps: nat)
    requires x < 0x100_0000_0000
    ensures (x - wraps * 0x100_0000_0000) % 0x100_0000_0000 == x
  {
  }

  /** Whether or not the clock wraps meanwhile, the relay adds its hold time and antenna delay, less the rounding. */
  lemma HopDelay(l: Leg, r: Relay)
    requires SentBy(l, r)
    requires 511 <= Hold(r, l.heard.frame.rptCount) + r.antenna < POW40
    ensures var hold := Hold(r, l.heard.frame.rptCount);
      l.delay == hold + r.antenna - (HopReception(l.heard, l.hop) + hold) % 512
  {
    var reception := HopReception(l.heard, l.hop);
    StartIs(r, l.heard.frame, reception);
    var start := Start(r, l.heard.frame, reception);
    assert l.delay == (start + r.antenna - reception) % 0x100_0000_0000;
    hide Hold, SendTime, HopReception, SentBy;
    HeldFor(reception, Hold(r, l.heard.frame.rptCount), r.antenna, start);
  }

  // -------------------------------------------------------------------- chains

  /** The relays rs send the frames of the chain, each in turn. */
  ghost predicate SentByRelays(chain: seq<Leg>, rs: seq<Relay>) {
    && |rs| == |chain|
    && forall i :: 0 <= i < |chain| ==> SentBy(chain[i], rs[i])
  }

  /** What the settings of the relays add up to. */
  ghost function Budget(rs: seq<Relay>): nat {
    if rs == [] then 0
    else
      var n := |rs| - 1;
      Budget(rs[..n]) + Hold(rs[n], n) + rs[n].antenna
  }

  /** Every relay waits longer than the rounding can take away; any holdoff but zero does. */
  ghost predicate AllWait(rs: seq<Relay>) {
    forall i :: 0 <= i < |rs| ==> Hold(rs[i], i) + rs[i].antenna > 511
  }

  lemma {:induction false} BudgetInit(rs: seq<Relay>, n: nat)
    requires n <= |rs|
    ensures Budget(rs[..n]) <= Budget(rs)
    decreases |rs|
  {
    if n < |rs| {
      var m := |rs| - 1;
      assert rs[..m][..n] == rs[..n];
      BudgetInit(rs[..m], n);
    } else {
      assert rs[..n] == rs;
    }
  }

  /** What a chain of relays adds to a frame, by the settings of the relays. */
  lemma {:induction false} ChainDelay(a: Air, chain: seq<Leg>, rs: seq<Relay>)
    requires a.frame.Valid() && a.frame.rptCount == 0 && IsChain(a, chain)
    requires SentByRelays(chain, rs) && AllWait(rs) && Budget(rs) < POW40
    ensures Budget(rs) - 511 * |rs| <= TotalDelay(chain) <= Budget(rs)
    ensures chain != [] ==> TotalDelay(chain) > 0
    decreases |chain|
  {
    hide IsChain, SentBy, Hold, Legal, Moved, End;
    if chain != [] {
      var n := |chain| - 1;
      ChainInit(a, chain);
      BudgetInit(rs, n);
      ChainDelay(a, chain[..n], rs[..n]);
      ChainConserves(a, chain[..n]);
      assert SentBy(chain[n], rs[n]);
      assert Hold(rs[n], n) + rs[n].antenna > 511;
      hide SentByRelays, AllWait;
      HopAt(chain[n], rs[n], n);
    }
  }

  /** The delay of a hop, within the rounding. */
  lemma HopAt(l: Leg, r: Relay, n: nat)
    requires SentBy(l, r) && l.heard.frame.rptCount == n && 511 < Hold(r, n) + r.antenna < POW40
    ensures Hold(r, n) + r.antenna - 511 <= l.delay <= Hold(r, n) + r.antenna
  {
    hide Hold, HopReception, SentBy;
    HopDelay(l, r);
  }

  lemma {:induction false} PrefixesReadable(a: Air, chain: seq<Leg>, rs: seq<Relay>, n: nat)
    requires a.frame.Valid() && a.frame.rptCount == 0 && IsChain(a, chain)
    requires SentByRelays(chain, rs) && AllWait(rs) && Budget(rs) <= POW32
    requires 1 <= n <= |chain|
    ensures 0 < TotalDelay(chain[..n]) <= POW32
  {
    assert forall i :: 0 <= i < n ==> chain[..n][i] == chain[i] && rs[..n][i] == rs[i];
    hide IsChain, SentBy, Hold, Budget, TotalDelay;
    PrefixIsChain(a, chain, n);
    BudgetInit(rs, n);
    ChainDelay(a, chain[..n], rs[..n]);
  }

  lemma PrefixIsChain(a: Air, chain: seq<Leg>, n: nat)
    requires IsChain(a, chain) && n <= |chain|
    ensures IsChain(a, chain[..n])
  {
    forall i | 0 <= i < n ensures Legal(chain[..n][i]) && chain[..n][i].heard == End(a, chain[..n][..i]) {
      assert Legal(chain[i]) && chain[..n][..i] == chain[..i];
    }
  }

  /**
   * Behind relays whose settings add up to at most 2^32, about 67 ms, the delay can be read off behind each of them:
   * what is said of readable chains holds. Where they add up to more, by more than the rounding, no listener at the
   * end of the chain recovers the master's epoch.
   */
  lemma {:induction false} SettingsDecide(a: Air, chain: seq<Leg>, rs: seq<Relay>)
    requires a.frame.Valid() && a.frame.rptCount == 0 && a.frame.interval % POW32 == 0
    requires IsChain(a, chain) && chain != [] && SentByRelays(chain, rs) && AllWait(rs)
    ensures Budget(rs) <= POW32 ==> Readable(chain) && MasterEpoch(End(a, chain).frame) % POW40 == MasterEpoch(a.frame) % POW40
    ensures POW32 + 511 * |rs| < Budget(rs) < POW40 ==>
      MasterEpoch(End(a, chain).frame) % POW40 != MasterEpoch(a.frame) % POW40
  {
    hide MasterEpoch, Period, IsChain, SentByRelays, AllWait, End, Budget, TotalDelay, Wraps;
    RelayedEpochIsMasters(a, chain);
    if Budget(rs) < POW40 {
      ChainDelay(a, chain, rs);
      if Budget(rs) <= POW32 {
        forall n {:trigger chain[..n]} | 1 <= n <= |chain| ensures 0 < TotalDelay(chain[..n]) <= POW32 {
          PrefixesReadable(a, chain, rs, n);
        }
      }
    }
  }

  /** The frame on air is the one the relay's reception makes it send, under the relay's own address. */
  lemma RelaySendsForward(l: Leg, r: Relay)
    requires SentBy(l, r)
    ensures l.out.frame == Forward(r, l.heard.frame, Reception(l.heard.frame, Counter(l.heard.time + l.hop.flight, l.hop.offset)))
    ensures l.out.frame.shortAddress == r.shortAddress && l.out.frame.euid == l.heard.frame.euid
  {
    hide SendTime, Reception;
  }

  // ------------------------------------------------- what the epochs stand for

  lemma Offset64(x: int, y: int)
    ensures ((x - y) % 0x1_0000_0000_0000_0000 + y) % 0x1_0000_0000_0000_0000 == x % 0x1_0000_0000_0000_0000
  {
    Sum64(x - y, y);
  }

  /** The master's epoch e lies before the timestamp by what the frame says it does. */
  lemma DirectEpochIs(f: Blink)
    requires f.Valid() && f.rptCount == 0
    ensures (MasterEpoch(f) + f.epochToRm * POW16) % POW64 == f.timestamp
  {
    Offset64(f.timestamp, EpochOffset(f));
  }

  /** The epoch e lies so much earlier again, which is what the interval misses to a multiple of 2^32. */
  ghost predicate EarlierBy(f: Blink, e: nat, missing: nat) {
    && 0 < missing <= POW32 && (f.interval + missing) % POW32 == 0
    && (e + f.epochToRm * POW16 + missing) % POW64 == f.timestamp
  }

  lemma RelayedEpochIs(f: Blink)
    requires f.Valid() && f.rptCount != 0
    ensures exists missing :: EarlierBy(f, MasterEpoch(f), missing)
  {
    RoundUp(f.interval, RepeatDelay(f));
    hide RepeatDelay;
    TwiceEarlier(f.timestamp, EpochOffset(f), RepeatDelay(f), MasterEpoch(f));
    assert EarlierBy(f, MasterEpoch(f), RepeatDelay(f));
  }

  lemma TwiceEarlier(t: nat, e: nat, r: nat, epoch: nat)
    requires t < 0x1_0000_0000_0000_0000
    requires epoch == ((t - e) % 0x1_0000_0000_0000_0000 - r) % 0x1_0000_0000_0000_0000
    ensures (epoch + e + r) % 0x1_0000_0000_0000_0000 == t
  {
    Sum64(t - e, -(r as int));
    Offset64(t, e + r);
  }

  /** How far before transmission or reception the epoch is put. */
  ghost function Before(f: Blink): nat {
    EpochOffset(f) + if f.rptCount == 0 then 0 else RepeatDelay(f)
  }

  lemma MasterEpochLow(f: Blink)
    ensures MasterEpoch(f) % POW40 == (f.timestamp - Before(f)) % POW40
  {
    var direct, r := (f.timestamp - EpochOffset(f)) % POW64, RepeatDelay(f);
    hide RepeatDelay, EpochOffset;
    Low40(f.timestamp - EpochOffset(f));
    Sum64(f.timestamp - EpochOffset(f), -(r as int));
    Low40(f.timestamp - EpochOffset(f) - r);
  }

  lemma LocalEpochLow(f: Blink, rx: nat)
    ensures LocalEpoch(f, rx) % POW40 == (rx - Before(f)) % POW40
  {
    var r := RepeatDelay(f);
    hide RepeatDelay, EpochOffset;
    Low40(rx - EpochOffset(f));
    Sum64(rx - EpochOffset(f), -(r as int));
    Low40(rx - EpochOffset(f) - r);
  }

  lemma SameDifference(x: int, y: int, x': int, y': int)
    requires x % 0x100_0000_0000 == x' % 0x100_0000_0000 && y % 0x100_0000_0000 == y' % 0x100_0000_0000
    ensures (x - y) % 0x100_0000_0000 == (x' - y') % 0x100_0000_0000
  {
  }

  /** On its own clock the listener puts the epoch as long before the reception as the master before the sending. */
  lemma EpochsAgree(f: Blink, rx: nat)
    ensures (LocalEpoch(f, rx) - MasterEpoch(f)) % POW40 == (rx - f.timestamp) % POW40
  {
    hide LocalEpoch, MasterEpoch, Before;
    LocalEpochLow(f, rx);
    MasterEpochLow(f);
    SameDifference(LocalEpoch(f, rx), MasterEpoch(f), rx - Before(f), f.timestamp - Before(f));
  }

  lemma Fields(p: nat)
    ensures p * 0x1_0000 % 0x100_0000_0000 / 0x1_0000 == p % 0x100_0000
  {
  }

  /** Heard directly, the period is the master's as far as 24 bits of it go. */
  lemma PeriodIsMasters(f: Blink, period: nat)
    requires f.rptCount == 0 && f.interval == Advertised(period)
    ensures Period(f) == period % POW24
  {
    Fields(period);
  }
}
