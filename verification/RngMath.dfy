/**
 * Time of flight from timestamps (firmware/lib/rng_math/src/rng_math.c). Request and response
 * timestamps are 32-bit, transmission and reception timestamps 64-bit; floating-point values are reals.
 */
module RngMath {
  import opened Prelude

  /** The difference of two 32-bit timestamps. */
  function Minus32(x: nat, y: nat): nat { (x - y) % POW32 }

  /** The difference of two 64-bit timestamps, and its low half. */
  function Minus64(x: nat, y: nat): nat { (x - y) % POW64 }

  function Low32(x: nat, y: nat): nat { Minus64(x, y) % POW32 }

  function Signed64(x: int): int {
    var u := x % POW64;
    if u < POW64 / 2 then u else u - POW64
  }

  /** The four timestamps of one request and response. */
  datatype Exchange = Exchange(request: nat, response: nat, reception: nat, transmission: nat)

  /** The initiator's and the responder's side of the exchange. */
  function RoundTrip(e: Exchange): nat { Minus32(e.response, e.request) }

  function Turnaround(e: Exchange): nat { Low32(e.transmission, e.reception) }

  function CalcTofSs(e: Exchange, skew: real): real {
    (RoundTrip(e) as real - Turnaround(e) as real * (1.0 - skew)) / 2.0
  }

  /** From the round trips and turnarounds of two exchanges; None stands for not-a-number. */
  function DsFormula(round1: nat, turn1: nat, round2: nat, turn2: nat): Option<real> {
    var nom := Signed64(round1 * round2 - turn1 * turn2);
    var denom := Signed64(round1 + round2 + turn1 + turn2);
    if denom == 0 then None else Some(nom as real / denom as real)
  }

  function CalcTofDs(first: Exchange, second: Exchange): Option<real> {
    DsFormula(RoundTrip(first), Turnaround(first), RoundTrip(second), Turnaround(second))
  }

  function SymSsFormula(round: nat, turn: nat): nat {
    (round - turn) % POW64 / 2 % POW32
  }

  /** The subtrahend is the full 64-bit difference here. */
  function CalcTofSymSs(e: Exchange): nat {
    SymSsFormula(RoundTrip(e), Minus64(e.transmission, e.reception))
  }

  function SymDsFormula(round1: nat, turn1: nat, round2: nat, turn2: nat): nat {
    (round1 - turn1 + round2 - turn2) % POW64 / 4 % POW32
  }

  function CalcTofSymDs(first: Exchange, second: Exchange): nat {
    SymDsFormula(RoundTrip(first), Turnaround(first), RoundTrip(second), Turnaround(second))
  }

  /**
   * The timestamps of an exchange that takes round ticks of the initiator's counter and turn ticks of the
   * responder's, wherever the counters stand and however they wrap.
   */
  ghost predicate Measures(e: Exchange, round: nat, turn: nat) {
    && e.response % POW32 == (e.request + round) % POW32
    && e.transmission % POW32 == (e.reception + turn) % POW32
  }

  lemma Wrapped(x: nat, y: nat, d: nat)
    requires d < POW32 && x % POW32 == (y + d) % POW32
    ensures Minus32(x, y) == d && Low32(x, y) == d
  {
    Difference(x, y, d);
    LowHalf(x - y);
  }

  lemma Difference(x: int, y: int, d: nat)
    requires d < 0x1_0000_0000 && x % 0x1_0000_0000 == (y + d) % 0x1_0000_0000
    ensures (x - y) % 0x1_0000_0000 == d
  {
  }

  lemma LowHalf(x: int)
    ensures x % 0x1_0000_0000_0000_0000 % 0x1_0000_0000 == x % 0x1_0000_0000
  {
  }

  lemma MeasuredIs(e: Exchange, round: nat, turn: nat)
    requires Measures(e, round, turn) && round < POW32 && turn < POW32
    ensures RoundTrip(e) == round && Turnaround(e) == turn
  {
    Wrapped(e.response, e.request, round);
    Wrapped(e.transmission, e.reception, turn);
  }

  const HALF32: nat := 0x8000_0000

  lemma ProductBound(x: nat, y: nat)
    requires x < HALF32 && y < HALF32
    ensures x * y <= 0x4000_0000_0000_0000
  {
    MulMono(x, HALF32, y);
    MulMono(y, HALF32, HALF32);
  }

  lemma SmallIsSigned(x: int)
    requires -0x4000_0000_0000_0000 <= x <= 0x4000_0000_0000_0000
    ensures Signed64(x) == x
  {
  }

  // ----------------------------------------------------------------- one exchange

  /** The single-sided formula over the reals, on intervals measured by two clocks. */
  lemma SsReal(r: real, u: real, t: real, d: real, a: real, b: real, skew: real)
    requires r == a * (2.0 * t + d) && u == b * d
    ensures (r - u * (1.0 - skew)) / 2.0 == a * t + d * (a - b * (1.0 - skew)) / 2.0
  {
    calc {
      (r - u * (1.0 - skew)) / 2.0;
      (2.0 * (a * t) + d * a - b * d * (1.0 - skew)) / 2.0;
      { assert b * d * (1.0 - skew) == d * (b * (1.0 - skew)); }
      (2.0 * (a * t) + d * (a - b * (1.0 - skew))) / 2.0;
      a * t + d * (a - b * (1.0 - skew)) / 2.0;
    }
  }

  lemma Divided(a: real, b: real, c: real)
    requires b != 0.0
    ensures a == b * c <==> c == a / b
  {
    assert b * (a / b) == a;
    if a == b * c {
      assert c == (b * c) / b;
    }
  }

  lemma NoProduct(d: real, g: real)
    ensures d * g / 2.0 == 0.0 <==> d == 0.0 || g == 0.0
  {
    if d != 0.0 && d * g / 2.0 == 0.0 {
      assert g == (d * g) / d;
    }
  }

  lemma NoError(d: real, a: real, b: real, skew: real)
    requires b > 0.0
    ensures d * (a - b * (1.0 - skew)) / 2.0 == 0.0 <==> d == 0.0 || skew == 1.0 - a / b
  {
    NoProduct(d, a - b * (1.0 - skew));
    Divided(a, b, 1.0 - skew);
  }

  /**
   * Single-sided ranging: with flight time t, turnaround d, and clocks of rates a at the initiator and b at the
   * responder, the result is the flight time in ticks of the initiator plus an error in proportion to the turnaround,
   * however the counters wrap; there is no error exactly for the skew 1 - a / b, or without a turnaround.
   */
  lemma SingleSidedIsFlightTime(e: Exchange, r: nat, u: nat, t: real, d: real, a: real, b: real, skew: real)
    requires b > 0.0 && r as real == a * (2.0 * t + d) && u as real == b * d
    requires Measures(e, r, u) && r < POW32 && u < POW32
    ensures CalcTofSs(e, skew) == a * t + d * (a - b * (1.0 - skew)) / 2.0
    ensures CalcTofSs(e, skew) == a * t <==> d == 0.0 || skew == 1.0 - a / b
  {
    MeasuredIs(e, r, u);
    hide Measures;
    assert CalcTofSs(e, skew) == (r as real - u as real * (1.0 - skew)) / 2.0;
    hide CalcTofSs;
    SsReal(r as real, u as real, t, d, a, b, skew);
    NoError(d, a, b, skew);
  }

  // ---------------------------------------------------------------- two exchanges

  /** Signed64 is the one number in the range of a signed word that is the same modulo 2^64. */
  lemma SignedIs(x: int, y: int)
    ensures y == Signed64(x) <==>
      -0x8000_0000_0000_0000 <= y < 0x8000_0000_0000_0000 && (x - y) % 0x1_0000_0000_0000_0000 == 0
  {
    SignedWord(x, y, x % POW64);
  }

  lemma SignedWord(x: int, y: int, u: int)
    requires u == x % 0x1_0000_0000_0000_0000
    ensures y == (if u < 0x8000_0000_0000_0000 then u else u - 0x1_0000_0000_0000_0000) <==>
      -0x8000_0000_0000_0000 <= y < 0x8000_0000_0000_0000 && (x - y) % 0x1_0000_0000_0000_0000 == 0
  {
  }

  /** What the 64-bit numerator makes of any 32-bit intervals: the quotient is exact as long as the numerator is, and undefined only for no time at all. */
  lemma DsExactIff(r1: nat, t1: nat, r2: nat, t2: nat)
    requires r1 < POW32 && t1 < POW32 && r2 < POW32 && t2 < POW32
    ensures DsFormula(r1, t1, r2, t2) == None <==> r1 + r2 + t1 + t2 == 0
    ensures 0 < r1 + r2 + t1 + t2 ==>
      (DsFormula(r1, t1, r2, t2) == Some((r1 * r2 - t1 * t2) as real / (r1 + r2 + t1 + t2) as real) <==>
        -0x8000_0000_0000_0000 <= r1 * r2 - t1 * t2 < 0x8000_0000_0000_0000)
  {
    var nom, denom := r1 * r2 - t1 * t2, r1 + r2 + t1 + t2;
    SignedIs(denom, denom);
    SignedIs(nom, nom);
    var got := Signed64(nom);
    hide Signed64;
    if denom != 0 {
      SameQuotient(got, nom, denom);
    }
  }

  lemma SameQuotient(x: int, y: int, n: int)
    requires n > 0
    ensures x as real / n as real == y as real / n as real <==> x == y
  {
    if x as real / n as real == y as real / n as real {
      assert x as real == (x as real / n as real) * n as real;
      assert y as real == (y as real / n as real) * n as real;
    }
  }

  /** Below 2^31 ticks nothing overflows 64 bits. */
  lemma DsExact(r1: nat, t1: nat, r2: nat, t2: nat)
    requires r1 < HALF32 && t1 < HALF32 && r2 < HALF32 && t2 < HALF32 && 0 < r1 + r2 + t1 + t2
    ensures DsFormula(r1, t1, r2, t2) == Some((r1 * r2 - t1 * t2) as real / (r1 + r2 + t1 + t2) as real)
  {
    ProductBound(r1, r2);
    ProductBound(t1, t2);
    SmallIsSigned(r1 * r2 - t1 * t2);
    SmallIsSigned(r1 + r2 + t1 + t2);
  }

  /** The flight time, turnaround delays and clock rates as reals. */
  lemma DsAlgebra(t: real, d1: real, d2: real, a: real, b: real)
    ensures (a * (2.0 * t + d1)) * (b * (2.0 * t + d2)) - (b * d1) * (a * d2) == (2.0 * a * b * t) * (2.0 * t + d1 + d2)
    ensures a * (2.0 * t + d1) + b * (2.0 * t + d2) + b * d1 + a * d2 == (a + b) * (2.0 * t + d1 + d2)
  {
    var k := 2.0 * t + d1 + d2;
    var p := (2.0 * t + d1) * (2.0 * t + d2) - d1 * d2;
    assert p == 2.0 * t * k;
    assert (a * (2.0 * t + d1)) * (b * (2.0 * t + d2)) == (a * b) * ((2.0 * t + d1) * (2.0 * t + d2));
    assert (b * d1) * (a * d2) == (a * b) * (d1 * d2);
    assert (a * b) * p == (2.0 * a * b * t) * k;
  }

  /** The same for the intervals by name. */
  lemma DsIntervals(r1: real, t1: real, r2: real, t2: real, t: real, d1: real, d2: real, a: real, b: real, k: real)
    requires r1 == a * (2.0 * t + d1) && t1 == b * d1 && r2 == b * (2.0 * t + d2) && t2 == a * d2
    requires k == 2.0 * t + d1 + d2
    ensures r1 * r2 - t1 * t2 == (2.0 * a * b * t) * k
    ensures r1 + r2 + t1 + t2 == (a + b) * k
  {
    DsAlgebra(t, d1, d2, a, b);
  }

  lemma Cancel(x: real, y: real, k: real)
    requires y != 0.0 && k != 0.0
    ensures y * k != 0.0 && (x * k) / (y * k) == x / y
  {
    var q := x / y;
    assert q * y == x;
    assert q * (y * k) == x * k;
  }

  /** The formula over the reals. */
  lemma DsQuotient(n: real, d: real, r1: real, t1: real, r2: real, t2: real,
                   t: real, d1: real, d2: real, a: real, b: real)
    requires 0.0 < t && 0.0 <= d1 && 0.0 <= d2 && 0.0 < a && 0.0 < b
    requires r1 == a * (2.0 * t + d1) && t1 == b * d1 && r2 == b * (2.0 * t + d2) && t2 == a * d2
    requires n == r1 * r2 - t1 * t2 && d == r1 + r2 + t1 + t2
    ensures d != 0.0 && n / d == 2.0 * a * b * t / (a + b)
  {
    var k := 2.0 * t + d1 + d2;
    DsIntervals(r1, t1, r2, t2, t, d1, d2, a, b, k);
    Quotient(n, d, 2.0 * a * b * t, a + b, k);
  }

  lemma Quotient(n: real, d: real, x: real, y: real, k: real)
    requires n == x * k && d == y * k && y != 0.0 && k != 0.0
    ensures d != 0.0 && n / d == x / y
  {
    Cancel(x, y, k);
  }

  lemma Products(r1: nat, t1: nat, r2: nat, t2: nat)
    ensures (r1 * r2 - t1 * t2) as real == r1 as real * r2 as real - t1 as real * t2 as real
    ensures (r1 + r2 + t1 + t2) as real == r1 as real + r2 as real + t1 as real + t2 as real
  {
  }

  /** The formula on intervals that come from flight time t, turnaround delays d1 and d2, and clocks of rates a and b. */
  lemma DsIsFlightTime(r1: nat, t1: nat, r2: nat, t2: nat, t: real, d1: real, d2: real, a: real, b: real)
    requires 0.0 < t && 0.0 <= d1 && 0.0 <= d2 && 0.0 < a && 0.0 < b
    requires r1 as real == a * (2.0 * t + d1) && t1 as real == b * d1
    requires r2 as real == b * (2.0 * t + d2) && t2 as real == a * d2
    requires 0 < r1 + r2 + t1 + t2
    ensures (r1 * r2 - t1 * t2) as real / (r1 + r2 + t1 + t2) as real == 2.0 * a * b * t / (a + b)
  {
    Products(r1, t1, r2, t2);
    DsQuotient((r1 * r2 - t1 * t2) as real, (r1 + r2 + t1 + t2) as real,
               r1 as real, t1 as real, r2 as real, t2 as real, t, d1, d2, a, b);
  }

  /**
   * Double-sided ranging: with flight time t, turnaround delays d1 and d2, and clocks running at rates a and b,
   * the result is t scaled by 2ab/(a+b), whatever the delays and however the counters wrap.
   */
  lemma DoubleSidedIsFlightTime(first: Exchange, second: Exchange, r1: nat, t1: nat, r2: nat, t2: nat,
                                t: real, d1: real, d2: real, a: real, b: real)
    requires 0.0 < t && 0.0 <= d1 && 0.0 <= d2 && 0.0 < a && 0.0 < b
    requires r1 as real == a * (2.0 * t + d1) && t1 as real == b * d1
    requires r2 as real == b * (2.0 * t + d2) && t2 as real == a * d2
    requires r1 < HALF32 && t1 < HALF32 && r2 < HALF32 && t2 < HALF32
    requires Measures(first, r1, t1) && Measures(second, r2, t2)
    ensures CalcTofDs(first, second) == Some(2.0 * a * b * t / (a + b))
  {
    assert 0 < r1 by { assert 0.0 < a * (2.0 * t + d1); }
    MeasuredIs(first, r1, t1);
    MeasuredIs(second, r2, t2);
    DsExact(r1, t1, r2, t2);
    DsIsFlightTime(r1, t1, r2, t2, t, d1, d2, a, b);
  }

  /** The symmetric double-sided time is the quarter of the sum, rounded down, modulo 2^32, also for negative sums. */
  lemma SymmetricIsQuarter(first: Exchange, second: Exchange)
    ensures CalcTofSymDs(first, second)
      == (RoundTrip(first) - Turnaround(first) + RoundTrip(second) - Turnaround(second)) / 4 % POW32
  {
    QuarterMod(RoundTrip(first) - Turnaround(first) + RoundTrip(second) - Turnaround(second));
  }

  lemma QuarterMod(x: int)
    ensures x % POW64 / 4 % POW32 == x / 4 % POW32
  {
    var q, u := x / POW64, x % POW64;
    Quarter(x, q, u);
    LowOf(u / 4, q * 0x4000_0000);
  }

  lemma Quarter(x: int, q: int, u: nat)
    requires x == q * POW64 + u
    ensures x / 4 == u / 4 + q * 0x4000_0000 * POW32
  {
  }

  lemma LowOf(x: int, k: int)
    ensures (x + k * POW32) % POW32 == x % POW32
  {
  }

  /** Without clock drift both double-sided formulas give the flight time. */
  lemma SymmetricAgrees(first: Exchange, second: Exchange, t: nat, d1: nat, d2: nat)
    requires 0 < t && 2 * t + d1 < HALF32 && 2 * t + d2 < HALF32
    requires Measures(first, 2 * t + d1, d1) && Measures(second, 2 * t + d2, d2)
    ensures CalcTofDs(first, second) == Some(t as real) && CalcTofSymDs(first, second) == t
  {
    var r1, r2 := 2 * t + d1, 2 * t + d2;
    MeasuredIs(first, r1, d1);
    MeasuredIs(second, r2, d2);
    DsExact(r1, d1, r2, d2);
    DriftFree(t, d1, d2);
    SymOfIntervals(r1, d1, r2, d2, t);
  }

  lemma SymOfIntervals(r1: nat, d1: nat, r2: nat, d2: nat, t: nat)
    requires r1 - d1 + r2 - d2 == 4 * t && t < POW32
    ensures SymDsFormula(r1, d1, r2, d2) == t
  {
  }

  lemma DriftFree(t: nat, d1: nat, d2: nat)
    requires 0 < t
    ensures var r1, r2 := 2 * t + d1, 2 * t + d2;
      (r1 * r2 - d1 * d2) as real / (r1 + r2 + d1 + d2) as real == t as real
  {
    var r1, r2 := 2 * t + d1, 2 * t + d2;
    var k := 4 * t + 2 * d1 + 2 * d2;
    assert r1 * r2 - d1 * d2 == t * k;
    assert (t * k) as real == t as real * k as real;
  }

  /**
   * The symmetric single-sided time agrees with the plain one at zero skew, rounded down, exactly when the
   * high half of the 64-bit transmission difference is even.
   */
  lemma SymmetricSingleSided(e: Exchange)
    ensures CalcTofSymSs(e) == (RoundTrip(e) - Turnaround(e)) / 2 % POW32
      <==> Minus64(e.transmission, e.reception) / POW32 % 2 == 0
    ensures CalcTofSs(e, 0.0) == (RoundTrip(e) - Turnaround(e)) as real / 2.0
  {
    var diff := Minus64(e.transmission, e.reception);
    HalfMod(RoundTrip(e) - diff);
    HighHalf(RoundTrip(e) - diff % POW32, diff / POW32, RoundTrip(e) - diff);
  }

  lemma HalfMod(x: int)
    ensures x % POW64 / 2 % POW32 == x / 2 % POW32
  {
    var q, u := x / POW64, x % POW64;
    Half(x, q, u);
    LowOf(u / 2, q * 0x8000_0000);
  }

  lemma Half(x: int, q: int, u: nat)
    requires x == q * POW64 + u
    ensures x / 2 == u / 2 + q * 0x8000_0000 * POW32
  {
  }

  lemma HighHalf(x: int, high: nat, y: int)
    requires y == x - high * POW32
    ensures y / 2 % POW32 == x / 2 % POW32 <==> high % 2 == 0
  {
    assert y / 2 == x / 2 - high * HALF32;
  }

  /** For timestamps that fit 32 bits: exactly when the responder's counter did not wrap. */
  lemma SymmetricSingleSidedNoWrap(e: Exchange)
    requires e.transmission < POW32 && e.reception < POW32
    ensures CalcTofSymSs(e) == (RoundTrip(e) - Turnaround(e)) / 2 % POW32 <==> e.reception <= e.transmission
  {
    SymmetricSingleSided(e);
    HighParity(e.transmission, e.reception);
  }

  lemma HighParity(x: nat, y: nat)
    requires x < POW32 && y < POW32
    ensures Minus64(x, y) / POW32 % 2 == 0 <==> y <= x
  {
  }
}
