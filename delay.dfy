/**
 * The delay helpers of include/sys/delay.h: each converts its argument
 * to microseconds in 64-bit `unsigned long` arithmetic and passes it to
 * `udelay`.  The functions below give the microseconds that reach
 * `udelay`.
 */
module Delay {
  import opened Machine
  import Types

  /** `ndelay(nsecs)`: `udelay(DIV_ROUND_UP(nsecs, 1000))`. */
  function NdelayUsecs(nsecs: u64): u64
  {
    Types.DivRoundUp(nsecs, 1000)
  }

  /**
   * The nanoseconds are rounded up to whole microseconds: the delay is
   * never shorter than asked, and less than a microsecond longer, unless
   * nsecs + 999 wraps past 2^64.
   */
  lemma NdelayRoundsUp(nsecs: u64)
    requires nsecs + 999 < U64_LIMIT
    ensures NdelayUsecs(nsecs) * 1000 >= nsecs
    ensures NdelayUsecs(nsecs) * 1000 < nsecs + 1000
  {
    var r := NdelayUsecs(nsecs);
    assert (r - 1) * 1000 < nsecs <= r * 1000;
  }

  /** `mdelay(msecs)`: `udelay(msecs * 1000)`, the product in 64 bits. */
  function MdelayUsecs(msecs: u64): u64
  {
    (msecs * 1000) % U64_LIMIT
  }

  /** The milliseconds are converted exactly while the product fits. */
  lemma MdelayExact(msecs: u64)
    ensures msecs * 1000 < U64_LIMIT ==> MdelayUsecs(msecs) == msecs * 1000
    ensures msecs * 1000 >= U64_LIMIT ==> MdelayUsecs(msecs) < msecs * 1000
  {
  }

  /** `msleep(msecs)`, a macro for `mdelay(msecs)`. */
  function MsleepUsecs(msecs: u64): u64
  {
    MdelayUsecs(msecs)
  }

  /** `usleep_range(min, max)`, a macro for `udelay(min)`. */
  function UsleepRangeUsecs(min: u64, max: u64): u64
  {
    min
  }

  /** msleep waits as long as mdelay, and usleep_range the lower bound, whatever max is. */
  lemma SleepsAreDelays(msecs: u64, min: u64, max1: u64, max2: u64)
    ensures MsleepUsecs(msecs) == MdelayUsecs(msecs)
    ensures UsleepRangeUsecs(min, max1) == UsleepRangeUsecs(min, max2) == min
  {
  }
}
