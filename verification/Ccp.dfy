/**
 * Clock calibration (firmware/lib/rtls_ccp/src/rtls_ccp.c): what a slave makes of a
 * blink frame, what a relay sends on, and how the master stamps its frames.
 * Times are counts of the 40-bit radio clock; 64-bit arithmetic wraps.
 */
module Ccp {
  import opened Prelude

  /** The fields of a blink frame that carry time: 64-bit timestamp, 40-bit interval. */
  datatype Blink = Blink(euid: nat, shortAddress: nat, interval: nat, timestamp: nat,
                         rptCount: nat, rptMax: nat, epochToRm: nat)
  {
    ghost predicate Valid() {
      && interval < POW40 && timestamp < POW64
      && rptCount < POW8 && rptMax < POW8 && epochToRm < POW16
    }
  }

  /** What a node knows of its master's clock. */
  datatype Clock = Clock(masterEuid: nat, masterEpoch: nat, localEpoch: nat, period: nat, valid: bool, validCount: nat)

  // ------------------------------------------------------------- reception

  /** How long the sender assumes the relays held the frame: up to the next multiple of 2^32 of the interval. */
  ghost function RepeatDelay(f: Blink): nat {
    (f.interval / POW32 + 1) * POW32 - f.interval
  }

  ghost function EpochOffset(f: Blink): nat { f.epochToRm * POW16 }

  ghost function MasterEpoch(f: Blink): nat {
    var direct := (f.timestamp - EpochOffset(f)) % POW64;
    if f.rptCount == 0 then direct else (direct - RepeatDelay(f)) % POW64
  }

  ghost function LocalEpoch(f: Blink, rx: nat): nat {
    var direct := (rx - EpochOffset(f)) % POW64;
    if f.rptCount == 0 then direct else (direct - RepeatDelay(f)) % POW64 % POW40
  }

  ghost function Period(f: Blink): nat {
    if f.rptCount == 0 then f.interval / POW16 % POW32 else (f.interval / POW32 + 1) * POW32 / POW16 % POW32
  }

  /** The reception time a relay counts from: corrected for a relayed frame, raw for a direct one. */
  ghost function Reception(f: Blink, rx: nat): nat {
    if f.rptCount == 0 then rx else LocalEpoch(f, rx)
  }

  /** Whether f continues the sequence of frames the clock c stands for. */
  ghost predicate Continues(c: Clock, f: Blink) {
    f.timestamp >= c.masterEpoch && f.euid == c.masterEuid
  }

  /** The clock after frame f, received at rx; threshold is UWB_CCP_VALID_THRESHOLD and the count has three bits. */
  ghost function Receive(c: Clock, threshold: nat, f: Blink, rx: nat): Clock {
    var count :=
      if !Continues(c, f) then 0
      else if c.validCount < threshold - 1 then (c.validCount + 1) % 8
      else c.validCount;
    var valid := if !Continues(c, f) then threshold == 0 else c.valid || count == threshold - 1;
    Clock(f.euid, MasterEpoch(f), LocalEpoch(f, rx), Period(f), valid, count)
  }

  /** uwb_ccp_start leaves the epochs and the count as they are. */
  ghost function Restart(c: Clock): Clock {
    c.(masterEuid := 0, valid := false)
  }

  // ----------------------------------------------------------------- relay

  /** The settings of one relay. */
  datatype Relay = Relay(shortAddress: nat, holdoff: nat, blink: nat, slot: nat, antenna: nat)
  {
    ghost predicate Valid() {
      holdoff < POW16 && blink < POW16 && antenna < POW16
    }
  }

  /** When the relay's frame leaves its antenna: at a multiple of 512 of its own clock, plus the antenna delay. */
  ghost function SendTime(r: Relay, f: Blink, reception: nat): nat {
    var t := reception + (f.rptCount + 1) * (r.holdoff * POW16) + r.slot % 4 * (r.blink * POW16);
    t % POW40 / 512 * 512 + r.antenna
  }

  /** The frame a relay with the given short address sends at time sent of the clock that received f at reception. */
  ghost function ForwardAt(f: Blink, shortAddress: nat, reception: nat, sent: nat): Blink {
    var delay := (sent - reception) % POW64;
    f.(shortAddress := shortAddress, rptCount := f.rptCount + 1,
       timestamp := (f.timestamp + delay) % POW64,
       interval := (f.interval - delay) % POW40)
  }

  ghost function Forward(r: Relay, f: Blink, reception: nat): Blink {
    ForwardAt(f, r.shortAddress, reception, SendTime(r, f, reception))
  }

  // ------------------------------------------------------------- the master

  /** The timestamp of the frame after the one stamped prev. */
  ghost function Stamp(prev: nat, period: nat, antenna: nat): (ts: nat)
    ensures ts < POW64
  {
    ((prev + period * POW16) % POW64 / 512 * 512 + antenna) % POW64
  }

  /** How a transmission ended: on air, refused by the radio, or broken off after its start. */
  datatype Outcome = Completed | StartFailed | Aborted

  /** What the master's own frames keep: the timestamp, and the 40-bit interval it was sent with. */
  datatype Stamped = Stamped(ts: nat, interval: nat)

  /** A master's ring of frames, its 16-bit index, the period it sends at, and the antenna delay. */
  datatype Ring = Ring(frames: seq<Stamped>, idx: nat, period: nat, antenna: nat)
  {
    ghost predicate Valid() {
      1 < |frames| < POW16 && idx < POW16 && period < POW32 && antenna < POW16
    }

    /** The timestamp the next frame is counted from. */
    ghost function Prev(): nat
      requires Valid()
    {
      frames[idx % |frames|].ts
    }
  }

  /** The timestamp of the next frame. */
  ghost function NextTs(m: Ring): nat
    requires m.Valid()
  {
    Stamp(m.Prev(), m.period, m.antenna)
  }

  /** The interval a frame advertises: the period, in a field of 40 bits. */
  ghost function Advertised(period: nat): nat {
    period * POW16 % POW40
  }

  /** The period taken back from such a field. */
  ghost function PeriodOf(interval: nat): (period: nat)
    ensures period < POW32
  {
    interval / POW16 % POW32
  }

  /** The frames once the next one has been prepared. */
  ghost function Prepared(m: Ring): (frames: seq<Stamped>)
    requires m.Valid()
    ensures |frames| == |m.frames|
  {
    m.frames[(m.idx + 1) % |m.frames| := Stamped(NextTs(m), Advertised(m.period))]
  }

  /**
   * The ring after a send. A completed one takes the period from the frame its index then stands for, a refused one
   * moves the frame it counted from, and one broken off keeps the index.
   */
  ghost function AfterSend(m: Ring, o: Outcome): (m': Ring)
    requires m.Valid()
    ensures m'.Valid() && |m'.frames| == |m.frames| && m'.antenna == m.antenna
  {
    var frames := Prepared(m);
    var idx := (m.idx + 1) % POW16;
    var here := m.idx % |m.frames|;
    match o
    case Completed => m.(frames := frames, idx := idx, period := PeriodOf(frames[idx % |frames|].interval))
    case StartFailed =>
      m.(frames := frames[here := frames[here].(ts := (NextTs(m) + m.period * POW16) % POW64)], idx := idx)
    case Aborted => m.(frames := frames)
  }

  // ----------------------------------------------------- the state in place

  class CcpInstance {
    const threshold: nat
    const relay: Option<Relay>
    var masterEuid: nat
    var masterEpoch: nat
    var localEpoch: nat
    var period: nat
    var valid: bool
    var validCount: nat

    ghost function Abs(): Clock
      reads this
    {
      Clock(masterEuid, masterEpoch, localEpoch, period, valid, validCount)
    }

    constructor (threshold: nat, relay: Option<Relay>)
      ensures this.threshold == threshold && this.relay == relay
      ensures Abs() == Clock(0, 0, 0, 0, false, 0)
    {
      this.threshold, this.relay := threshold, relay;
      masterEuid, masterEpoch, localEpoch, period, valid, validCount := 0, 0, 0, 0, false, 0;
    }

    method Start()
      modifies this
      ensures Abs() == Restart(old(Abs()))
    {
      valid := false;
      masterEuid := 0;
    }

    /** rx_complete_cb for a slave: update the clock, and send the frame on if this node is a relay. */
    method RxComplete(f: Blink, rx: nat) returns (tx: Option<Blink>)
      requires f.Valid() && rx < POW40 && (relay.Some? ==> relay.value.Valid())
      modifies this
      ensures Abs() == Receive(old(Abs()), threshold, f, rx)
      ensures tx == if relay.Some? && valid && f.rptCount < f.rptMax
                    then Some(Forward(relay.value, f, Reception(f, rx))) else None
    {
      CheckSequence(f);
      var reception := SetEpochs(f, rx);
      tx := None;
      if relay.Some? && valid && f.rptCount < f.rptMax {
        var out := MakeRelayed(relay.value, f, reception);
        tx := Some(out);
      }
    }

    method CheckSequence(f: Blink)
      modifies `masterEuid, `valid, `validCount
      ensures masterEuid == f.euid
      ensures validCount == Receive(old(Abs()), threshold, f, 0).validCount
      ensures valid == Receive(old(Abs()), threshold, f, 0).valid
    {
      if f.timestamp < masterEpoch || f.euid != masterEuid {
        masterEuid := f.euid;
        valid := threshold == 0;
        validCount := 0;
      } else {
        if validCount < threshold - 1 {
          validCount := (validCount + 1) % 8;
        }
        valid := valid || validCount == threshold - 1;
      }
    }

    method SetEpochs(f: Blink, rx: nat) returns (reception: nat)
      requires f.Valid() && rx < POW40
      modifies `masterEpoch, `localEpoch, `period
      ensures masterEpoch == MasterEpoch(f) && localEpoch == LocalEpoch(f, rx) && period == Period(f)
      ensures reception == Reception(f, rx)
    {
      reception := rx;
      masterEpoch := (f.timestamp - f.epochToRm * POW16) % POW64;
      localEpoch := (rx - f.epochToRm * POW16) % POW64;
      period := f.interval / POW16 % POW32;
      if f.rptCount != 0 {
        var masterInterval := (f.interval / POW32 + 1) * POW32;
        period := masterInterval / POW16 % POW32;
        var repeatDly := masterInterval - f.interval;
        masterEpoch := (masterEpoch - repeatDly) % POW64;
        localEpoch := (localEpoch - repeatDly) % POW64 % POW40;
        reception := localEpoch;
      }
    }

    static method MakeRelayed(r: Relay, f: Blink, reception: nat) returns (tx: Blink)
      requires f.Valid() && r.Valid()
      ensures tx == Forward(r, f, reception)
    {
      var rptCount := f.rptCount + 1;
      var txTime := reception + rptCount * (r.holdoff * POW16);
      txTime := txTime + r.slot % 4 * (r.blink * POW16);
      txTime := txTime % POW40 / 512 * 512;
      txTime := txTime + r.antenna;
      assert txTime == SendTime(r, f, reception);
      hide SendTime;
      var txDelay := (txTime - reception) % POW64;
      tx := f.(shortAddress := r.shortAddress, rptCount := rptCount,
               timestamp := (f.timestamp + txDelay) % POW64,
               interval := (f.interval - txDelay) % POW40);
    }
  }

  /** A master: its ring of frames, of which only timestamp and interval matter here. */
  class CcpMaster {
    const frames: array<Stamped>
    const antenna: nat
    var period: nat
    var idx: nat

    ghost function State(): Ring
      reads this, frames
    {
      Ring(frames[..], idx, period, antenna)
    }

    ghost predicate Valid()
      reads this, frames
    {
      State().Valid()
    }

    constructor (nframes: nat, period: nat, antenna: nat, ts: nat)
      requires 1 < nframes < POW16 && period < POW32 && antenna < POW16
      ensures Valid() && fresh(frames)
      ensures State() == Ring(seq(nframes, i => Stamped(if i == 0 then ts else 0, 0)), 0, period, antenna)
    {
      frames := new Stamped[nframes](i => Stamped(if i == 0 then ts else 0, 0));
      this.period, this.antenna, idx := period, antenna, 0;
      new;
      assert frames[..] == seq(nframes, i => Stamped(if i == 0 then ts else 0, 0));
    }

    method NextStamp(prev: nat) returns (ts: nat)
      ensures ts == Stamp(prev, period, antenna)
    {
      ts := (prev + period * POW16) % POW64;
      ts := ts / 512 * 512;
      ts := (ts + antenna) % POW64;
    }

    /** ccp_send together with what ends it, tx_complete_cb included; interval is the 40-bit field the frame advertises. */
    method Send(outcome: Outcome) returns (ts: nat, interval: nat)
      requires Valid()
      modifies this, frames
      ensures Valid() && State() == AfterSend(old(State()), outcome)
      ensures ts == NextTs(old(State())) && interval == Advertised(old(period))
    {
      var here, next := idx % frames.Length, (idx + 1) % frames.Length;
      ts := NextStamp(frames[here].ts);
      interval := period * POW16 % POW40;
      frames[next] := Stamped(ts, interval);
      match outcome {
        case Completed =>
          idx := (idx + 1) % POW16;
          period := frames[idx % frames.Length].interval / POW16 % POW32;
        case StartFailed =>
          frames[here] := frames[here].(ts := (ts + period * POW16) % POW64);
          idx := (idx + 1) % POW16;
        case Aborted =>
      }
    }
  }

  lemma RingStep(idx: nat, n: nat)
    requires 1 < n
    ensures idx % n != (idx + 1) % n
  {
    ApartMod(idx, 1, n);
  }

  /** The 16-bit index finds the frame just written exactly if it does not wrap, or the ring length divides 2^16. */
  lemma RingWrap(idx: nat, n: nat)
    requires 1 < n && idx < POW16
    ensures (idx + 1) % POW16 % n == (idx + 1) % n <==> idx + 1 < POW16 || POW16 % n == 0
  {
    Reduced(idx, (idx + 1) % POW16);
  }

  lemma Reduced(idx: nat, next: nat)
    requires idx < 0x1_0000 && next == (idx + 1) % 0x1_0000
    ensures next == if idx + 1 < 0x1_0000 then idx + 1 else 0
  {
  }
}
