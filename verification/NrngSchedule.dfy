/**
 * When the replies to one ranging request are on air, and how long the initiator waits for them
 * (firmware/lib/rtls_nrng_ss/src/rtls_nrng_ss.c, firmware/lib/rtls_nrng/src/rtls_nrng.c).
 * Delays are in UWB microseconds, times in units of 1/65536 of one.
 */
module NrngSchedule {
  import opened Prelude
  import opened Slots

  /**
   * Settings: delays in UWB microseconds, the duration of a response frame in microseconds, and the two
   * conversions between the units, of which only their order is known.
   */
  datatype Config = Config(holdoff: nat, guard: nat, rxTimeout: nat, duration: nat,
                           durationUus: nat, guardUs: nat)
  {
    /** Converting to UWB microseconds never enlarges a number, converting from them never diminishes it. */
    predicate Valid() {
      durationUus <= duration && guard <= guardUs && 0 < guard
    }
  }

  /** usecs_to_response. */
  function UsecsToResponse(c: Config, nslots: nat): nat {
    nslots * (c.duration + c.guardUs)
  }

  /** When the responder of rank k, having received the request at rx, starts to send: a multiple of 512. */
  function StartOfReply(c: Config, rx: nat, k: nat): nat {
    (rx + (c.holdoff + k * (c.guard + c.durationUus)) * POW16) / 512 * 512
  }

  /** One responder: its rank, the arrival of the request on its clock, and all the flight and antenna delay of the exchange. */
  datatype Responder = Responder(rank: nat, rx: nat, flight: nat)

  /** The arrival of its reply at the initiator, counted from the end of the request. */
  function Arrival(c: Config, r: Responder): int {
    StartOfReply(c, r.rx, r.rank) - r.rx + r.flight
  }

  /** The reply is over. */
  function Over(c: Config, r: Responder): int {
    Arrival(c, r) + c.durationUus * POW16
  }

  /** The round trip fits the guard time, with the rounding of the send time. */
  predicate InRange(c: Config, r: Responder) {
    r.flight + 511 <= c.guard * POW16 && r.flight <= c.rxTimeout * POW16
  }

  /** The 16-bit timeout set with the request. */
  function InitialTimeout(c: Config, nnodes: nat): nat {
    (c.holdoff + UsecsToResponse(c, nnodes) + c.rxTimeout) % POW16
  }

  /** The 16-bit timeout set after the reply of rank k, unless it is the last. */
  function RearmedTimeout(c: Config, nnodes: nat, k: nat): nat
    requires k <= nnodes
  {
    (UsecsToResponse(c, nnodes - k) + c.rxTimeout) % POW16
  }

  /** The whole wait can be expressed in 16 bits. */
  predicate Fits(c: Config, nnodes: nat) {
    c.holdoff + UsecsToResponse(c, nnodes) + c.rxTimeout < POW16
  }

  lemma ArrivalBounds(c: Config, r: Responder)
    ensures var nominal := (c.holdoff + r.rank * (c.guard + c.durationUus)) * POW16 + r.flight;
      nominal - 511 <= Arrival(c, r) <= nominal
  {
  }

  /** Later ranks start a whole slot later. */
  lemma SlotsApart(c: Config, k: nat, m: nat)
    requires k < m
    ensures k * (c.guard + c.durationUus) + (c.guard + c.durationUus) <= m * (c.guard + c.durationUus)
  {
    MulMono(k + 1, m, c.guard + c.durationUus);
    assert (k + 1) * (c.guard + c.durationUus) == k * (c.guard + c.durationUus) + (c.guard + c.durationUus);
  }

  /** Replies of different ranks never overlap at the initiator. */
  lemma RepliesDisjoint(c: Config, r: Responder, s: Responder)
    requires c.Valid() && r.rank < s.rank && InRange(c, r) && InRange(c, s)
    ensures Over(c, r) <= Arrival(c, s)
  {
    ArrivalBounds(c, r);
    ArrivalBounds(c, s);
    SlotsApart(c, r.rank, s.rank);
  }

  lemma WaitCovers(c: Config, k: nat, n: nat)
    requires c.Valid() && k < n
    ensures k * (c.guard + c.durationUus) + (c.guard + c.durationUus) <= UsecsToResponse(c, n)
  {
    var air, wait := c.guard + c.durationUus, c.duration + c.guardUs;
    MulMono(k + 1, n, air);
    assert (k + 1) * air == k * air + air;
    assert n * air <= n * wait by { MulMono(air, wait, n); }
  }

  /** The timeout set with the request covers every reply. */
  lemma InitialTimeoutCovers(c: Config, nnodes: nat, r: Responder)
    requires c.Valid() && r.rank < nnodes && InRange(c, r) && Fits(c, nnodes)
    ensures Over(c, r) <= InitialTimeout(c, nnodes) * POW16
  {
    ArrivalBounds(c, r);
    WaitCovers(c, r.rank, nnodes);
    var wait := UsecsToResponse(c, nnodes);
    assert InitialTimeout(c, nnodes) == c.holdoff + wait + c.rxTimeout;
    hide Arrival, UsecsToResponse, InitialTimeout;
  }

  /** The timeout set after any reply, counted from the end of that reply, covers every later one. */
  lemma RearmedTimeoutCovers(c: Config, nnodes: nat, r: Responder, s: Responder)
    requires c.Valid() && r.rank < s.rank < nnodes && InRange(c, r) && InRange(c, s) && Fits(c, nnodes)
    ensures Over(c, s) - Over(c, r) <= RearmedTimeout(c, nnodes, r.rank) * POW16
  {
    ArrivalBounds(c, r);
    ArrivalBounds(c, s);
    WaitCovers(c, s.rank - r.rank, nnodes - r.rank);
    assert RearmedTimeout(c, nnodes, r.rank) == UsecsToResponse(c, nnodes - r.rank) + c.rxTimeout by {
      MulMono(nnodes - r.rank, nnodes, c.duration + c.guardUs);
    }
    Distance(r.rank, s.rank, c.guard + c.durationUus);
  }

  /** What a slot takes longer by the initiator's reckoning than by the responders': the two conversions of the units. */
  function Slack(c: Config): nat
    requires c.Valid()
  {
    (c.duration - c.durationUus) + (c.guardUs - c.guard)
  }

  lemma SlotsAndSlack(c: Config, n: nat)
    requires c.Valid()
    ensures UsecsToResponse(c, n) == n * Air(c) + n * Slack(c)
  {
  }

  /** From the start of one reply to that of the next, on air. */
  function Air(c: Config): nat { c.guard + c.durationUus }

  lemma OverIs(c: Config, r: Responder)
    ensures var nominal := (c.holdoff + r.rank * Air(c) + c.durationUus) * POW16 + r.flight;
      nominal - 511 <= Over(c, r) <= nominal
  {
    ArrivalBounds(c, r);
  }

  /**
   * The timeout set with the request is no longer than it must be: after the last reply the initiator waits for the
   * timing allowance, one guard time and the slack of all slots, and no more than the rounding longer.
   */
  lemma InitialTimeoutIsTight(c: Config, nnodes: nat, last: Responder)
    requires c.Valid() && last.rank == nnodes - 1 && Fits(c, nnodes)
    ensures InitialTimeout(c, nnodes) * POW16 - Over(c, last) <= (c.rxTimeout + c.guard + nnodes * Slack(c)) * POW16 + 511
  {
    OverIs(c, last);
    SlotsAndSlack(c, nnodes);
    assert nnodes * Air(c) == last.rank * Air(c) + Air(c);
    assert InitialTimeout(c, nnodes) == c.holdoff + UsecsToResponse(c, nnodes) + c.rxTimeout;
    hide UsecsToResponse, Slack, Over, InitialTimeout;
  }

  /** The sums of the next lemma, with products as single numbers: x of the slots waited for, y and z of those before. */
  lemma Remains(x: int, y: int, z: int, air: int, slack: int, timing: int, fixed: int, flight: int, flight': int,
                over: int, over': int)
    requires over <= (fixed + y) * POW16 + flight && (fixed + z) * POW16 + flight' - 511 <= over' && 0 <= flight'
    requires x == z + air - y
    ensures (x + slack + timing) * POW16 - (over' - over) <= (timing + air + slack) * POW16 + 511 + flight
  {
  }

  lemma RearmedIs(c: Config, nnodes: nat, k: nat)
    requires k <= nnodes && Fits(c, nnodes)
    ensures RearmedTimeout(c, nnodes, k) == UsecsToResponse(c, nnodes - k) + c.rxTimeout
  {
    MulMono(nnodes - k, nnodes, c.duration + c.guardUs);
  }

  /** Nor is the one set after a reply, which counts the slot of that reply once more. */
  lemma RearmedTimeoutIsTight(c: Config, nnodes: nat, r: Responder, last: Responder)
    requires c.Valid() && r.rank < last.rank == nnodes - 1 && Fits(c, nnodes)
    ensures RearmedTimeout(c, nnodes, r.rank) * POW16 - (Over(c, last) - Over(c, r))
      <= (c.rxTimeout + Air(c) + (nnodes - r.rank) * Slack(c)) * POW16 + 511 + r.flight
  {
    hide UsecsToResponse, Slack, Over, RearmedTimeout, Air, Fits;
    OverIs(c, r);
    OverIs(c, last);
    SlotsAndSlack(c, nnodes - r.rank);
    RearmedIs(c, nnodes, r.rank);
    Distance(r.rank, nnodes, Air(c));
    Distance(last.rank, nnodes, Air(c));
    Remains((nnodes - r.rank) * Air(c), r.rank * Air(c), last.rank * Air(c), Air(c), (nnodes - r.rank) * Slack(c), c.rxTimeout,
            c.holdoff + c.durationUus, r.flight, last.flight, Over(c, r), Over(c, last));
  }

  lemma Distance(k: nat, m: nat, air: nat)
    requires k <= m
    ensures (m - k) * air == m * air - k * air
  {
  }

  /** The responder in slot i of the mask, by its rank. */
  ghost predicate InSlot(r: Responder, mask: nat, i: nat) {
    Bit(mask, i) && r.rank == Rank(mask, i)
  }

  /**
   * The schedule and the mask together: the replies from two requested slots never overlap, and the timeouts set
   * with the request and after the first of them outlast both, the number of nodes being that of the bits.
   */
  lemma {:induction false} RequestedReplies(c: Config, mask: nat, i: nat, j: nat, r: Responder, s: Responder)
    requires c.Valid() && i < j && InSlot(r, mask, i) && InSlot(s, mask, j)
    requires InRange(c, r) && InRange(c, s) && Fits(c, PopCount(mask))
    ensures r.rank < s.rank < PopCount(mask)
    ensures Over(c, r) <= Arrival(c, s)
    ensures Over(c, r) <= InitialTimeout(c, PopCount(mask)) * POW16
    ensures Over(c, s) <= InitialTimeout(c, PopCount(mask)) * POW16
    ensures Over(c, s) - Over(c, r) <= RearmedTimeout(c, PopCount(mask), r.rank) * POW16
  {
    hide Bit, Rank, PopCount;
    RankStrict(mask, i, j);
    RankStrict(mask, j, j + 1);
    RankOfAll(mask, j + 1);
    hide Over, Arrival, InRange, Fits, InitialTimeout, RearmedTimeout;
    RepliesDisjoint(c, r, s);
    InitialTimeoutCovers(c, PopCount(mask), r);
    InitialTimeoutCovers(c, PopCount(mask), s);
    RearmedTimeoutCovers(c, PopCount(mask), r, s);
  }
}
