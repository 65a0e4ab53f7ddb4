/**
 * TSC frequency and uptime, kernel/tsc.c: the frequency from CPUID leaf
 * 15H (Intel SDM Vol. 2A, "CPUID", leaf 15H "Time Stamp Counter and
 * Nominal Core Crystal Clock Information"), the kHz formula of the PIT
 * calibration, the fallback chain of `tsc_init` and the conversion of
 * cycles to microseconds.
 *
 * The outputs of `cpuid`, the value of the time-stamp counter and the
 * result of the PIT measurement are parameters.  Every quantity is
 * unsigned: 32 bits for the leaf 15H arithmetic, 64 bits elsewhere.
 */
module Tsc {
  import opened Machine
  import Types
  import Cpu

  /** The leaf `native_calibrate_tsc` reads. */
  const TSC_LEAF := 0x15

  // Family 6 model numbers of include/asm/intel-family.h.
  const INTEL_FAM6_SKYLAKE_MOBILE := 0x4E
  const INTEL_FAM6_SKYLAKE_DESKTOP := 0x5E
  const INTEL_FAM6_KABYLAKE_MOBILE := 0x8E
  const INTEL_FAM6_KABYLAKE_DESKTOP := 0x9E
  const INTEL_FAM6_SKYLAKE_X := 0x55
  const INTEL_FAM6_ATOM_DENVERTON := 0x5F
  const INTEL_FAM6_ATOM_GOLDMONT := 0x5C

  /** The frequency `tsc_init` assumes when both calibrations fail: 2 GHz. */
  const ASSUMED_KHZ := 2000000

  /** The clock frequency of the i8253/i8254 PIT, in Hz. */
  const PIT_TICK_RATE := 1193182
  const MAX_QUICK_PIT_MS := 500
  /** The most MSB steps of the PIT the quick calibration waits for. */
  const MAX_QUICK_PIT_ITERATIONS := MAX_QUICK_PIT_MS * PIT_TICK_RATE / 1000 / 256

  /** 500 ms of PIT ticks, in steps of 256 ticks. */
  lemma MaxQuickPitIterations()
    ensures MAX_QUICK_PIT_ITERATIONS == 2330
    ensures MAX_QUICK_PIT_ITERATIONS * 256 <= MAX_QUICK_PIT_MS * PIT_TICK_RATE / 1000
  {
  }

  // ---------------------------------------------------------------------
  // native_calibrate_tsc

  /** The crystal frequency of the models whose leaf 15H leaves ECX zero. */
  function CrystalFallback(model: u8): u32
  {
    if model == INTEL_FAM6_SKYLAKE_MOBILE || model == INTEL_FAM6_SKYLAKE_DESKTOP
       || model == INTEL_FAM6_KABYLAKE_MOBILE || model == INTEL_FAM6_KABYLAKE_DESKTOP then 24000
    else if model == INTEL_FAM6_SKYLAKE_X || model == INTEL_FAM6_ATOM_DENVERTON then 25000
    else if model == INTEL_FAM6_ATOM_GOLDMONT then 19200
    else 0
  }

  /** `crystal_khz`: ECX in kHz, or the model's known crystal when that is 0. */
  function CrystalKhz(ecxHz: u32, model: u8): u32
  {
    if ecxHz / 1000 != 0 then ecxHz / 1000 else CrystalFallback(model)
  }

  /**
   * The crystal is ECX / 1000 whenever ECX reports at least 1 MHz; below
   * that it is 24 MHz for Skylake and Kaby Lake client parts, 25 MHz for
   * Skylake-X and Denverton, 19.2 MHz for Goldmont and unknown (0) for
   * every other model.
   */
  lemma CrystalCases(ecxHz: u32, model: u8)
    ensures ecxHz >= 1000 ==> CrystalKhz(ecxHz, model) * 1000 <= ecxHz < (CrystalKhz(ecxHz, model) + 1) * 1000
    ensures ecxHz < 1000 ==> CrystalKhz(ecxHz, model) in {0, 19200, 24000, 25000}
    ensures ecxHz < 1000 ==> (CrystalKhz(ecxHz, model) == 0 <==>
      model !in {0x4E, 0x5E, 0x8E, 0x9E, 0x55, 0x5F, 0x5C})
  {
  }

  /** The guards of `native_calibrate_tsc`: an Intel CPU with leaf 15H reporting a ratio. */
  predicate HasTscLeaf(vendor: u8, cpuidLevel: int, leaf: Cpu.Regs)
  {
    vendor == Cpu.X86_VENDOR_INTEL && cpuidLevel >= TSC_LEAF && leaf.ebx != 0 && leaf.eax != 0
  }

  /**
   * `native_calibrate_tsc`, with leaf 15H (EAX the denominator, EBX the
   * numerator, ECX the crystal in Hz) as a parameter; the product of the
   * crystal and the numerator is computed in 32 bits.
   */
  function NativeCalibrate(vendor: u8, cpuidLevel: int, leaf: Cpu.Regs, model: u8): u64
  {
    if vendor != Cpu.X86_VENDOR_INTEL then 0
    else if cpuidLevel < TSC_LEAF then 0
    else if leaf.ebx == 0 || leaf.eax == 0 then 0
    else ((CrystalKhz(leaf.ecx, model) * leaf.ebx) % U32_LIMIT) / leaf.eax
  }

  /**
   * A nonzero result needs an Intel CPU, leaf 15H, a nonzero ratio and a
   * known crystal; it is then the crystal scaled by numerator over
   * denominator, rounded down, of the 32-bit product.  When the product
   * does not wrap and is at least the denominator, the result is nonzero.
   */
  lemma NativeCalibrateRatio(vendor: u8, cpuidLevel: int, leaf: Cpu.Regs, model: u8)
    ensures var r := NativeCalibrate(vendor, cpuidLevel, leaf, model);
      r != 0 ==> HasTscLeaf(vendor, cpuidLevel, leaf) && CrystalKhz(leaf.ecx, model) != 0
    ensures var r := NativeCalibrate(vendor, cpuidLevel, leaf, model);
      var product := CrystalKhz(leaf.ecx, model) * leaf.ebx;
      HasTscLeaf(vendor, cpuidLevel, leaf) ==>
        r * leaf.eax <= product % U32_LIMIT < (r + 1) * leaf.eax
    ensures var product := CrystalKhz(leaf.ecx, model) * leaf.ebx;
      HasTscLeaf(vendor, cpuidLevel, leaf) && leaf.eax <= product < U32_LIMIT ==>
        NativeCalibrate(vendor, cpuidLevel, leaf, model) != 0
  {
    if HasTscLeaf(vendor, cpuidLevel, leaf) {
      var product := CrystalKhz(leaf.ecx, model) * leaf.ebx;
      var r := NativeCalibrate(vendor, cpuidLevel, leaf, model);
      DivModUnique(product % U32_LIMIT, leaf.eax, r, (product % U32_LIMIT) % leaf.eax);
      if r != 0 {
        assert product % U32_LIMIT != 0;
      }
    }
  }

  // ---------------------------------------------------------------------
  // quick_pit_calibrate's formula

  /**
   * kHz from a TSC delta over i steps of 256 PIT ticks:
   * `delta *= PIT_TICK_RATE; do_div(delta, i*256*1000)`, the product in
   * 64 bits.
   */
  function PitKhz(delta: u64, i: nat): u64
    requires 1 <= i <= MAX_QUICK_PIT_ITERATIONS
  {
    Types.DoDiv((delta * PIT_TICK_RATE) % U64_LIMIT, i * 256 * 1000).0
  }

  /**
   * The divisor fits do_div's 32 bits, so the result is the 64-bit product
   * divided by the elapsed time in PIT ticks times 1000, rounded down; when
   * the product does not wrap it is the TSC ticks per millisecond of PIT
   * time, ticks * rate / (i * 256 * 1000).
   */
  lemma PitKhzQuotient(delta: u64, i: nat)
    requires 1 <= i <= MAX_QUICK_PIT_ITERATIONS
    ensures i * 256 * 1000 < U32_LIMIT
    ensures var r := PitKhz(delta, i);
      r * (i * 256 * 1000) <= (delta * PIT_TICK_RATE) % U64_LIMIT < (r + 1) * (i * 256 * 1000)
    ensures delta * PIT_TICK_RATE < U64_LIMIT ==>
      PitKhz(delta, i) * (i * 256 * 1000) <= delta * PIT_TICK_RATE < (PitKhz(delta, i) + 1) * (i * 256 * 1000)
  {
    var d := i * 256 * 1000;
    assert d <= 2330 * 256000;
    assert d % U32_LIMIT == d;
    var n := (delta * PIT_TICK_RATE) % U64_LIMIT;
    var q := Types.DoDiv(n, d);
    assert n == q.0 * d + q.1 && q.1 < d;
  }

  // ---------------------------------------------------------------------
  // tsc_init, uptime, udelay

  /** The static `tsc_khz` after `tsc_init`: the first calibration that gives a result, else 2 GHz. */
  function InitKhz(native: u64, pit: u64): (r: u64)
    ensures r != 0
    ensures r == native || r == pit || r == ASSUMED_KHZ
    ensures native != 0 ==> r == native
    ensures native == 0 && pit != 0 ==> r == pit
  {
    if native != 0 then native else if pit != 0 then pit else ASSUMED_KHZ
  }

  /** `uptime()`: microseconds since reset, 0 while the frequency is unknown. */
  function Uptime(khz: u64, cycles: u64): u64
  {
    if khz == 0 then 0 else ((cycles * 1000) % U64_LIMIT) / khz
  }

  /**
   * Without a frequency the uptime is 0; with one, and a cycle count
   * whose product with 1000 fits, it is cycles / (khz / 1000) rounded
   * down, so it never decreases as the counter advances.
   */
  lemma UptimeMicroseconds(khz: u64, cycles: u64)
    ensures khz == 0 ==> Uptime(khz, cycles) == 0
    ensures khz != 0 && cycles * 1000 < U64_LIMIT ==>
      Uptime(khz, cycles) * khz <= cycles * 1000 < (Uptime(khz, cycles) + 1) * khz
  {
    if khz != 0 && cycles * 1000 < U64_LIMIT {
      var u := Uptime(khz, cycles);
      DivModUnique(cycles * 1000, khz, u, (cycles * 1000) % khz);
    }
  }

  lemma {:induction false} UptimeMonotone(khz: u64, c1: u64, c2: u64)
    requires c1 <= c2 && c2 * 1000 < U64_LIMIT
    ensures Uptime(khz, c1) <= Uptime(khz, c2)
  {
    if khz != 0 {
      UptimeMicroseconds(khz, c1);
      UptimeMicroseconds(khz, c2);
      if Uptime(khz, c1) > Uptime(khz, c2) {
        MulAtLeast(Uptime(khz, c2) + 1, khz);
        assert (Uptime(khz, c2) + 1) * khz <= Uptime(khz, c1) * khz by {
          MulMono(Uptime(khz, c2) + 1, Uptime(khz, c1), khz);
        }
      }
    }
  }

  lemma MulMono(a: nat, b: nat, k: nat)
    requires a <= b
    ensures a * k <= b * k
  {
  }

  /** `uptime() - t0` in `useconds_t`, which wraps. */
  function Elapsed(t0: u64, now: u64): u64
  {
    (now - t0) % U64_LIMIT
  }

  /**
   * Whether `udelay(usecs)` stops at a reading `now` of the uptime after
   * a first reading t0: at once when t0 is 0 (no frequency yet), and
   * otherwise once usecs microseconds have elapsed.
   */
  predicate UdelayDone(t0: u64, now: u64, usecs: u64)
  {
    t0 == 0 || Elapsed(t0, now) >= usecs
  }

  /**
   * The elapsed time is the plain difference while the uptime has not
   * wrapped, so a delay started at t0 is over exactly from t0 + usecs on.
   */
  lemma UdelayWaitsUsecs(t0: u64, now: u64, usecs: u64)
    requires t0 != 0 && t0 <= now
    ensures UdelayDone(t0, now, usecs) <==> now >= t0 + usecs
  {
    assert Elapsed(t0, now) == now - t0;
  }

  /** The static `tsc_khz`. */
  class Clock {
    var tscKhz: u64

    /** Before `tsc_init` the frequency is 0. */
    constructor ()
      ensures tscKhz == 0
    {
      tscKhz := 0;
    }

    /** `tsc_init`, with the results of the two calibrations as parameters. */
    method TscInit(native: u64, pit: u64)
      modifies this
      ensures tscKhz == InitKhz(native, pit) && tscKhz != 0
    {
      tscKhz := native;
      if tscKhz == 0 {
        tscKhz := pit;
      }
      if tscKhz == 0 {
        tscKhz := ASSUMED_KHZ;
      }
    }

    /** `uptime()` at a counter value `cycles`. */
    method GetUptime(cycles: u64) returns (us: u64)
      ensures us == Uptime(tscKhz, cycles)
    {
      if tscKhz == 0 {
        return 0;
      }
      us := ((cycles * 1000) % U64_LIMIT) / tscKhz;
    }
  }
}
