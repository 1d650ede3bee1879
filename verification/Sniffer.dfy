/**
 * The unwrapping of the sniffer's 32-bit microsecond clock,
 * UwbSniffer.correct_time in firmware/apps/wireshark/script/uwb_sniffer.py.
 * The reading of the local clock, int(time.time() * 10**6), is a parameter.
 */
module Sniffer {

  import opened Prelude

  const HALF: int := 0x8000_0000

  const PERIOD: int := 0x1_0000_0000

  /** The overflow count chosen for a time stamp, given the time computed locally. */
  function Overflows(estimate: int, stamp: int): int {
    var count, modulo := estimate / PERIOD, estimate % PERIOD;
    if modulo + HALF < stamp then count - 1
    else if modulo - HALF > stamp then count + 1
    else count
  }

  /** Less than half a period apart, or half a period without an overflow between them. */
  predicate Near(truth: int, estimate: int) {
    || -HALF < truth - estimate < HALF
    || (truth - estimate in {-HALF, HALF} && truth / PERIOD == estimate / PERIOD)
  }

  /** Exactly when the local estimate is close enough the true number of overflows is found. */
  lemma UnwrapIsExact(truth: int, estimate: int)
    ensures truth % PERIOD + Overflows(estimate, truth % PERIOD) * PERIOD == truth
        <==> Near(truth, estimate)
  {
    var k, s := truth / PERIOD, truth % PERIOD;
    var q, r := estimate / PERIOD, estimate % PERIOD;
    assert truth == k * PERIOD + s && estimate == q * PERIOD + r;
  }

  class UwbSniffer {
    var firstLocal: Option<int>
    var firstSniffer: int

    constructor ()
      ensures firstLocal == None
    {
      firstLocal, firstSniffer := None, 0;
    }

    /**
     * `truth` is the sniffer's clock without wrap-around. From the second
     * packet on the answer is that clock, moved to the local clock's origin,
     * if and only if the two clocks are near.
     */
    method CorrectTime(stamp: int, local: int, ghost truth: int) returns (absolute: int)
      requires stamp == truth % PERIOD
      modifies this
      ensures old(firstLocal).None? ==> firstLocal == Some(local) && firstSniffer == stamp && absolute == local
      ensures old(firstLocal).Some? ==>
                && firstLocal == old(firstLocal) && firstSniffer == old(firstSniffer)
                && var estimate := firstSniffer + (local - firstLocal.value);
                   absolute == firstLocal.value + (truth - firstSniffer) <==> Near(truth, estimate)
    {
      if firstLocal.None? {
        firstLocal, firstSniffer := Some(local), stamp;
        return local;
      }
      var difference := local - firstLocal.value;
      var estimate := firstSniffer + difference;
      UnwrapIsExact(truth, estimate);
      var count, modulo := estimate / PERIOD, estimate % PERIOD;
      if modulo + PERIOD / 2 < stamp {
        count := count - 1;
      } else if modulo - PERIOD / 2 > stamp {
        count := count + 1;
      }
      return firstLocal.value - firstSniffer + stamp + count * PERIOD;
    }
  }
}
