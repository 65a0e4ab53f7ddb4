/**
 * The Intel VMX back end of the VMM (`vmm/vmx.c`): the VM-execution control
 * adjustment against the capability MSRs, the MSR bitmap, the VMCS field
 * accessors and their width checks, segment access rights, guest CR0/CR4
 * and long-mode transitions, the 4-level EPT walk, and the exit handlers
 * that emulate SYSCALL, SYSRET and WRMSR and skip an emulated instruction.
 *
 * The VMCS is a map from field encoding to the value last written with
 * VMWRITE; a field never written reads as 0.  Register and field values are
 * 64-bit patterns (`bv64`); a narrower C variable (`uint32_t`, `uint16_t`,
 * the `uint8_t` members of `struct kvm_segment`) is a `bv64` truncated at
 * each assignment that narrows, as the C conversion does.
 */
module Vmx {
  import opened Machine
  import opened KvmHost
  import opened BitFacts
  import Bitops
  import Mmu

  // ---------------------------------------------------------------------
  // VMCS field encodings (Intel SDM Vol. 3, Appendix B).  asm/vmx.h is not
  // part of this model; the values are the architectural encodings.

  /** A field encoding (below 2^15 for every field the VMM uses). */
  type Field = nat

  const GUEST_IA32_EFER: Field := 0x2806
  const VM_ENTRY_CONTROLS: Field := 0x4012
  const VM_EXIT_INSTRUCTION_LEN: Field := 0x440c
  const GUEST_INTERRUPTIBILITY_INFO: Field := 0x4824
  const GUEST_TR_AR_BYTES: Field := 0x4822
  const GUEST_CR0: Field := 0x6800
  const GUEST_CR3: Field := 0x6802
  const GUEST_CR4: Field := 0x6804
  const GUEST_RIP: Field := 0x681e
  const GUEST_RFLAGS: Field := 0x6820

  // Segment registers as `enum` VCPU_SREG_* of include/asm/kvm_host.h.
  const VCPU_SREG_ES: nat := 0
  const VCPU_SREG_CS: nat := 1
  const VCPU_SREG_SS: nat := 2
  const VCPU_SREG_TR: nat := 6
  const VCPU_SREG_LDTR: nat := 7

  // ---------------------------------------------------------------------
  // Field widths and the accessor checks (vmcs_check16 .. vmcs_checkl)

  /** The width of a VMCS field: bits 14:13 of its encoding. */
  datatype Width = Width16 | Width64 | Width32 | WidthNatural

  /** `field & 0x6000`, as bits 14:13 of the encoding. */
  function Kind(field: Field): nat
  {
    (field / 0x2000) % 4
  }

  /** `field & 1`: the access-type bit, set for the high half of a 64-bit field. */
  predicate High(field: Field)
  {
    field % 2 == 1
  }

  /** `vmcs_check16`: none of its four BUILD_BUG_ON_MSG conditions holds. */
  predicate Check16(field: Field)
  {
    !(Kind(field) == 1 && !High(field)) && !(Kind(field) == 1 && High(field)) && Kind(field) != 2 && Kind(field) != 3
  }

  /** `vmcs_check32`. */
  predicate Check32(field: Field)
  {
    Kind(field) != 0 && Kind(field) != 3
  }

  /** `vmcs_check64`. */
  predicate Check64(field: Field)
  {
    Kind(field) != 0 && !(Kind(field) == 1 && High(field)) && Kind(field) != 2 && Kind(field) != 3
  }

  /** `vmcs_checkl`. */
  predicate CheckL(field: Field)
  {
    Kind(field) != 0 && !(Kind(field) == 1 && !High(field)) && !(Kind(field) == 1 && High(field)) && Kind(field) != 2
  }

  /**
   * The width the encoding names, and which accessors the build-time checks
   * admit for it: the 16-bit and natural-width accessors exactly their own
   * widths, the 64-bit accessor only the full (not the high) form of a
   * 64-bit field, and the 32-bit accessor 32-bit fields and both forms of
   * 64-bit fields.
   */
  function FieldWidth(field: Field): (w: Width)
    ensures Check16(field) <==> w == Width16
    ensures Check32(field) <==> w == Width32 || w == Width64
    ensures Check64(field) <==> w == Width64 && !High(field)
    ensures CheckL(field) <==> w == WidthNatural
  {
    var bits := Kind(field);
    if bits == 0 then Width16 else if bits == 1 then Width64 else if bits == 2 then Width32 else WidthNatural
  }

  // ---------------------------------------------------------------------
  // The VMCS

  type Vmcs = map<Field, bv64>

  /** `__vmcs_read`. */
  function VmRead(v: Vmcs, field: Field): bv64
  {
    if field in v then v[field] else 0
  }

  /** `__vmcs_write`. */
  function VmWrite(v: Vmcs, field: Field, value: bv64): (r: Vmcs)
    ensures VmRead(r, field) == value
    ensures forall f :: f != field ==> VmRead(r, f) == VmRead(v, f)
  {
    v[field := value]
  }

  /** `vmcs_read32`: the value cast to `uint32_t`. */
  function Read32(v: Vmcs, field: Field): bv64
    requires Check32(field)
  {
    Low32(VmRead(v, field))
  }

  /** `vmcs_read64`. */
  function Read64(v: Vmcs, field: Field): bv64
    requires Check64(field)
  {
    VmRead(v, field)
  }

  /** `vmcs_readl`. */
  function ReadL(v: Vmcs, field: Field): bv64
    requires CheckL(field)
  {
    VmRead(v, field)
  }

  // Named guest-state fields, each read with the accessor its width calls for.

  function EntryControls(v: Vmcs): bv64 { Read32(v, VM_ENTRY_CONTROLS) }

  function GuestEfer(v: Vmcs): bv64 { Read64(v, GUEST_IA32_EFER) }

  function GuestCr0(v: Vmcs): bv64 { ReadL(v, GUEST_CR0) }

  function GuestCr3(v: Vmcs): bv64 { ReadL(v, GUEST_CR3) }

  function GuestCr4(v: Vmcs): bv64 { ReadL(v, GUEST_CR4) }

  function TrAccessRights(v: Vmcs): bv64 { Read32(v, GUEST_TR_AR_BYTES) }

  function InstructionLength(v: Vmcs): bv64 { Read32(v, VM_EXIT_INSTRUCTION_LEN) }

  function Interruptibility(v: Vmcs): bv64 { Read32(v, GUEST_INTERRUPTIBILITY_INFO) }

  /** `kvm_rip_read` (vmx_get_rip). */
  function GetRip(v: Vmcs): bv64 { ReadL(v, GUEST_RIP) }

  /** `vmx_get_rflags`. */
  function GetRflags(v: Vmcs): bv64 { ReadL(v, GUEST_RFLAGS) }

  // ---------------------------------------------------------------------
  // adjust_vmx_controls

  /**
   * `adjust_vmx_controls(ctl_min, ctl_opt, msr)` given the capability MSR's
   * low half (controls that must be 1) and high half (controls that may be
   * 1): None is the panic for a required control that cannot be set.
   */
  function AdjustControls(ctlMin: bv32, ctlOpt: bv32, low: bv32, high: bv32): Option<bv32>
  {
    var ctl := ((ctlMin | ctlOpt) & high) | low;
    if ctlMin & !ctl != 0 then None else Some(ctl)
  }

  /** adjust_vmx_controls panics exactly when a required control is neither allowed nor forced. */
  lemma AdjustControlsPanics(ctlMin: bv32, ctlOpt: bv32, low: bv32, high: bv32)
    ensures AdjustControls(ctlMin, ctlOpt, low, high).None? <==> ctlMin & !high & !low != 0
  {
    MissingControls(ctlMin, ctlOpt, low, high);
  }

  lemma MissingControls(ctlMin: bv32, ctlOpt: bv32, low: bv32, high: bv32)
    ensures ctlMin & !(((ctlMin | ctlOpt) & high) | low) == ctlMin & !high & !low
  {
  }

  /**
   * What adjusted controls mean: every forced bit, only allowed or forced
   * bits, only requested or forced bits, every requested bit that is
   * allowed, and every required bit.
   */
  predicate Adjusted(ctl: bv32, ctlMin: bv32, ctlOpt: bv32, low: bv32, high: bv32)
  {
    && ctl & low == low
    && ctl & !(high | low) == 0
    && ctl & !(ctlMin | ctlOpt | low) == 0
    && (ctlMin | ctlOpt) & high & !ctl == 0
    && ctl & ctlMin == ctlMin
  }

  /** Without a panic, adjust_vmx_controls returns controls with the meaning above. */
  lemma AdjustControlsBits(ctlMin: bv32, ctlOpt: bv32, low: bv32, high: bv32)
    requires AdjustControls(ctlMin, ctlOpt, low, high).Some?
    ensures Adjusted(AdjustControls(ctlMin, ctlOpt, low, high).value, ctlMin, ctlOpt, low, high)
  {
    AdjustControlsValue(ctlMin, ctlOpt, low, high);
    ControlWordBits(ctlMin, ctlOpt, low, high);
  }

  lemma ControlWordBits(ctlMin: bv32, ctlOpt: bv32, low: bv32, high: bv32)
    requires ctlMin & !(((ctlMin | ctlOpt) & high) | low) == 0
    ensures Adjusted(((ctlMin | ctlOpt) & high) | low, ctlMin, ctlOpt, low, high)
  {
    CombinedControlBits(ctlMin | ctlOpt, low, high);
    RequiredControlBits(ctlMin, ctlOpt, low, high);
  }

  lemma AdjustControlsValue(ctlMin: bv32, ctlOpt: bv32, low: bv32, high: bv32)
    requires AdjustControls(ctlMin, ctlOpt, low, high).Some?
    ensures AdjustControls(ctlMin, ctlOpt, low, high).value == ((ctlMin | ctlOpt) & high) | low
    ensures ctlMin & !(((ctlMin | ctlOpt) & high) | low) == 0
  {
  }

  /** The bits of `(wanted & high) | low`, for wanted the requested controls. */
  lemma CombinedControlBits(wanted: bv32, low: bv32, high: bv32)
    ensures var ctl := (wanted & high) | low;
      && ctl & low == low
      && ctl & !(high | low) == 0
      && ctl & !(wanted | low) == 0
      && wanted & high & !ctl == 0
  {
    ForcedBits(wanted, low, high);
    AllowedBits(wanted, low, high);
    RequestedBits(wanted, low, high);
    GrantedBits(wanted, low, high);
  }

  lemma ForcedBits(wanted: bv32, low: bv32, high: bv32)
    ensures ((wanted & high) | low) & low == low
  {
  }

  lemma AllowedBits(wanted: bv32, low: bv32, high: bv32)
    ensures ((wanted & high) | low) & !(high | low) == 0
  {
  }

  lemma RequestedBits(wanted: bv32, low: bv32, high: bv32)
    ensures ((wanted & high) | low) & !(wanted | low) == 0
  {
  }

  lemma GrantedBits(wanted: bv32, low: bv32, high: bv32)
    ensures wanted & high & !((wanted & high) | low) == 0
  {
  }

  lemma RequiredControlBits(ctlMin: bv32, ctlOpt: bv32, low: bv32, high: bv32)
    requires ctlMin & !(((ctlMin | ctlOpt) & high) | low) == 0
    ensures (((ctlMin | ctlOpt) & high) | low) & ctlMin == ctlMin
  {
  }

  /** Only one control word has that meaning. */
  lemma AdjustControlsUnique(ctlMin: bv32, ctlOpt: bv32, low: bv32, high: bv32, x: bv32)
    requires AdjustControls(ctlMin, ctlOpt, low, high).Some?
    requires Adjusted(x, ctlMin, ctlOpt, low, high)
    ensures x == AdjustControls(ctlMin, ctlOpt, low, high).value
  {
    AdjustControlsValue(ctlMin, ctlOpt, low, high);
    AdjustedUnique(ctlMin, ctlOpt, low, high, x);
  }

  lemma AdjustedUnique(ctlMin: bv32, ctlOpt: bv32, low: bv32, high: bv32, x: bv32)
    requires Adjusted(x, ctlMin, ctlOpt, low, high)
    ensures x == ((ctlMin | ctlOpt) & high) | low
  {
  }

  // ---------------------------------------------------------------------
  // The MSR bitmap (Intel SDM Vol. 3, section 24.6.9, "MSR-Bitmap Address")

  /** `PAGE_SIZE / sizeof(unsigned long)` words of 64 bits. */
  const MSR_BITMAP_WORDS: nat := 512
  /** `sizeof(unsigned long)`. */
  const F: nat := 8

  /** The MSRs the bitmap controls: 0x00000000-0x00001fff and 0xc0000000-0xc0001fff. */
  predicate Controllable(msr: u32)
  {
    msr <= 0x1fff || (0xc000_0000 <= msr && msr <= 0xc000_1fff)
  }

  /** The bit that intercepts reads of msr: bit msr of the read-low quarter, or bit msr & 0x1fff of read-high. */
  function ReadBitIndex(msr: u32): (nr: nat)
    requires Controllable(msr)
  {
    if msr <= 0x1fff then 64 * (0x000 / F) + msr else 64 * (0x400 / F) + msr % 0x2000
  }

  /** The bit that intercepts writes: in the write-low or write-high quarter. */
  function WriteBitIndex(msr: u32): (nr: nat)
    requires Controllable(msr)
  {
    if msr <= 0x1fff then 64 * (0x800 / F) + msr else 64 * (0xc00 / F) + msr % 0x2000
  }

  /** Each MSR has its own read bit and write bit, all in distinct places inside the 4 KiB page. */
  lemma InterceptionBitsDistinct(m1: u32, m2: u32)
    requires Controllable(m1) && Controllable(m2)
    ensures ReadBitIndex(m1) < 64 * MSR_BITMAP_WORDS && WriteBitIndex(m1) < 64 * MSR_BITMAP_WORDS
    ensures ReadBitIndex(m1) != WriteBitIndex(m2)
    ensures m1 != m2 ==> ReadBitIndex(m1) != ReadBitIndex(m2) && WriteBitIndex(m1) != WriteBitIndex(m2)
  {
  }

  /** `read ? set_bit(nr) : clear_bit(nr)` on the bitmap contents. */
  function Intercept(words: seq<Bitops.Word>, nr: nat, on: bool): (r: seq<Bitops.Word>)
    requires nr < 64 * |words|
    ensures |r| == |words|
  {
    if on then Bitops.SetWord(words, nr) else Bitops.ClearWord(words, nr)
  }

  /** The bitmap after `__set_msr_interception(msr_bitmap, msr, read, write)`. */
  function MsrInterception(words: seq<Bitops.Word>, msr: u32, read: bool, write: bool): (r: seq<Bitops.Word>)
    requires |words| == MSR_BITMAP_WORDS
    ensures |r| == MSR_BITMAP_WORDS
  {
    if Controllable(msr) then
      Intercept(Intercept(words, ReadBitIndex(msr), read), WriteBitIndex(msr), write)
    else
      words
  }

  lemma InterceptBits(words: seq<Bitops.Word>, nr: nat, on: bool, j: nat)
    requires nr < 64 * |words| && j < 64 * |words|
    ensures Bitops.TestBit(Intercept(words, nr, on), j) == if j == nr then on else Bitops.TestBit(words, j)
  {
    if on {
      Bitops.SetWordBits(words, nr, j);
    } else {
      Bitops.ClearWordBits(words, nr, j);
    }
  }

  /**
   * Exactly two bits change: the MSR's read bit becomes read and its write
   * bit becomes write.  An MSR outside the two controllable ranges leaves
   * the bitmap as it was.
   */
  lemma MsrInterceptionBits(words: seq<Bitops.Word>, msr: u32, read: bool, write: bool, j: nat)
    requires |words| == MSR_BITMAP_WORDS && j < 64 * MSR_BITMAP_WORDS
    ensures !Controllable(msr) ==> MsrInterception(words, msr, read, write) == words
    ensures Controllable(msr) ==>
      Bitops.TestBit(MsrInterception(words, msr, read, write), j) ==
        if j == ReadBitIndex(msr) then read
        else if j == WriteBitIndex(msr) then write
        else Bitops.TestBit(words, j)
  {
    if Controllable(msr) {
      InterceptionBitsDistinct(msr, msr);
      var once := Intercept(words, ReadBitIndex(msr), read);
      InterceptBits(words, ReadBitIndex(msr), read, j);
      InterceptBits(once, WriteBitIndex(msr), write, j);
    }
  }

  /** `__set_msr_interception`: the bitmap words are rewritten in place. */
  method SetMsrInterception(msrBitmap: array<Bitops.Word>, msr: u32, read: bool, write: bool)
    requires msrBitmap.Length == MSR_BITMAP_WORDS
    modifies msrBitmap
    ensures msrBitmap[..] == MsrInterception(old(msrBitmap[..]), msr, read, write)
  {
    if msr <= 0x1fff {
      // read-low, then write-low
      SetReadWriteBits(msrBitmap, 64 * (0x000 / F) + msr, 64 * (0x800 / F) + msr, read, write);
    } else if 0xc000_0000 <= msr && msr <= 0xc000_1fff {
      var low := msr % 0x2000;  // msr &= 0x1fff
      // read-high, then write-high
      SetReadWriteBits(msrBitmap, 64 * (0x400 / F) + low, 64 * (0xc00 / F) + low, read, write);
    }
  }

  /** The two updates of one branch of `__set_msr_interception`: the read bit, then the write bit. */
  method SetReadWriteBits(msrBitmap: array<Bitops.Word>, readNr: nat, writeNr: nat, read: bool, write: bool)
    requires readNr < 64 * msrBitmap.Length && writeNr < 64 * msrBitmap.Length
    modifies msrBitmap
    ensures msrBitmap[..] == Intercept(Intercept(old(msrBitmap[..]), readNr, read), writeNr, write)
  {
    SetOrClearBit(readNr, msrBitmap, read);
    SetOrClearBit(writeNr, msrBitmap, write);
  }

  /** `on ? set_bit(nr, addr) : clear_bit(nr, addr)`. */
  method SetOrClearBit(nr: nat, addr: array<Bitops.Word>, on: bool)
    requires nr < 64 * addr.Length
    modifies addr
    ensures addr[..] == Intercept(old(addr[..]), nr, on)
  {
    if on {
      Bitops.SetBit(nr, addr);
    } else {
      Bitops.ClearBit(nr, addr);
    }
  }

  // ---------------------------------------------------------------------
  // vmx_hardware_setup: the EPT capability checks and the MSR bitmap

  /** `VMX_EPT_PAGE_WALK_4_BIT` and `VMX_EPT_2MB_PAGE_BIT` of `vmx_capability.ept` (Linux's values). */
  const VMX_EPT_PAGE_WALK_4_BIT: bv64 := 1 << 6
  const VMX_EPT_2MB_PAGE_BIT: bv64 := 1 << 16

  /** The range of VMX capability MSRs the guest may not touch (Linux's msr-index.h values). */
  const MSR_IA32_VMX_BASIC: u32 := 0x480
  const MSR_IA32_VMX_VMFUNC: u32 := 0x491

  /** The three MSRs whose writes are intercepted and reads passed through, as bitmap indices. */
  const BITMAP_APICBASE: u32 := 0x1b
  const BITMAP_X2APIC_ICR: u32 := 0x830
  const BITMAP_EFER: u32 := 0xc000_0080

  /** The bitmap indices are the MSR numbers the WRMSR handler tests. */
  lemma BitmapMsrNumbers()
    ensures BITMAP_APICBASE as int == MSR_IA32_APICBASE as int
    ensures BITMAP_X2APIC_ICR as int == MSR_X2APIC_ICR as int
    ensures BITMAP_EFER as int == MSR_EFER as int
  {
    assert MSR_X2APIC_ICR == 0x830;
  }

  /** `set_msr_interception(i, 1, 1)` for every i in [lo, hi), in ascending order. */
  function InterceptRange(words: seq<Bitops.Word>, lo: u32, hi: nat): (r: seq<Bitops.Word>)
    requires |words| == MSR_BITMAP_WORDS && lo <= hi < 0x1_0000_0000
    ensures |r| == MSR_BITMAP_WORDS
    decreases hi - lo
  {
    if hi == lo then words else MsrInterception(InterceptRange(words, lo, hi - 1), hi - 1, true, true)
  }

  /** The bitmap `vmx_hardware_setup` leaves: the four steps of its body, in order. */
  function HardwareSetupBitmap(words: seq<Bitops.Word>): (r: seq<Bitops.Word>)
    requires |words| == MSR_BITMAP_WORDS
    ensures |r| == MSR_BITMAP_WORDS
  {
    var apic := MsrInterception(words, BITMAP_APICBASE, false, true);
    var icr := MsrInterception(apic, BITMAP_X2APIC_ICR, false, true);
    var vmx := InterceptRange(icr, MSR_IA32_VMX_BASIC, MSR_IA32_VMX_VMFUNC as nat + 1);
    MsrInterception(vmx, BITMAP_EFER, false, true)
  }

  /**
   * Intercepting every MSR of a range of low MSRs sets their read bits,
   * which are the MSR numbers, and their write bits, 0x4000 further on;
   * every other bit keeps its value.
   */
  lemma {:induction false} InterceptRangeBits(words: seq<Bitops.Word>, lo: u32, hi: nat, j: nat)
    requires |words| == MSR_BITMAP_WORDS && lo <= hi <= 0x2000 && j < 64 * MSR_BITMAP_WORDS
    ensures Bitops.TestBit(InterceptRange(words, lo, hi), j)
         == ((lo <= j < hi) || (0x4000 + lo <= j < 0x4000 + hi) || Bitops.TestBit(words, j))
    decreases hi - lo
  {
    if hi != lo {
      InterceptRangeBits(words, lo, hi - 1, j);
      MsrInterceptionBits(InterceptRange(words, lo, hi - 1), hi - 1, true, true, j);
    }
  }

  /**
   * The bitmap after `vmx_hardware_setup`, bit by bit: reads of APIC_BASE,
   * the x2APIC ICR and EFER pass through and writes to them exit; both
   * reads and writes of MSR_IA32_VMX_BASIC..MSR_IA32_VMX_VMFUNC exit;
   * every other bit is as it was.
   */
  lemma HardwareSetupBits(words: seq<Bitops.Word>, j: nat)
    requires |words| == MSR_BITMAP_WORDS && j < 64 * MSR_BITMAP_WORDS
    ensures Bitops.TestBit(HardwareSetupBitmap(words), j) ==
      if j == ReadBitIndex(BITMAP_APICBASE) || j == ReadBitIndex(BITMAP_X2APIC_ICR) || j == ReadBitIndex(BITMAP_EFER) then false
      else if j == WriteBitIndex(BITMAP_APICBASE) || j == WriteBitIndex(BITMAP_X2APIC_ICR) || j == WriteBitIndex(BITMAP_EFER) then true
      else if ReadBitIndex(MSR_IA32_VMX_BASIC) <= j <= ReadBitIndex(MSR_IA32_VMX_VMFUNC) then true
      else if WriteBitIndex(MSR_IA32_VMX_BASIC) <= j <= WriteBitIndex(MSR_IA32_VMX_VMFUNC) then true
      else Bitops.TestBit(words, j)
  {
    var apic := MsrInterception(words, BITMAP_APICBASE, false, true);
    var icr := MsrInterception(apic, BITMAP_X2APIC_ICR, false, true);
    var vmx := InterceptRange(icr, MSR_IA32_VMX_BASIC, MSR_IA32_VMX_VMFUNC as nat + 1);
    MsrInterceptionBits(words, BITMAP_APICBASE, false, true, j);
    MsrInterceptionBits(apic, BITMAP_X2APIC_ICR, false, true, j);
    InterceptRangeBits(icr, MSR_IA32_VMX_BASIC, MSR_IA32_VMX_VMFUNC as nat + 1, j);
    MsrInterceptionBits(vmx, BITMAP_EFER, false, true, j);
  }

  /**
   * The same per MSR: the VMX MSRs exit on both accesses, APIC_BASE, the
   * x2APIC ICR and EFER exit on writes only, and every other MSR the
   * bitmap controls keeps both of its bits.
   */
  lemma HardwareSetupMsrs(words: seq<Bitops.Word>, msr: u32)
    requires |words| == MSR_BITMAP_WORDS && Controllable(msr)
    ensures var r := HardwareSetupBitmap(words);
      if MSR_IA32_VMX_BASIC <= msr <= MSR_IA32_VMX_VMFUNC then
        Bitops.TestBit(r, ReadBitIndex(msr)) && Bitops.TestBit(r, WriteBitIndex(msr))
      else if msr == BITMAP_APICBASE || msr == BITMAP_X2APIC_ICR || msr == BITMAP_EFER then
        !Bitops.TestBit(r, ReadBitIndex(msr)) && Bitops.TestBit(r, WriteBitIndex(msr))
      else
        Bitops.TestBit(r, ReadBitIndex(msr)) == Bitops.TestBit(words, ReadBitIndex(msr))
        && Bitops.TestBit(r, WriteBitIndex(msr)) == Bitops.TestBit(words, WriteBitIndex(msr))
  {
    if MSR_IA32_VMX_BASIC <= msr <= MSR_IA32_VMX_VMFUNC {
      SetupVmxMsr(words, msr);
    } else if msr == BITMAP_APICBASE || msr == BITMAP_X2APIC_ICR || msr == BITMAP_EFER {
      SetupWriteOnlyMsr(words, msr);
    } else {
      SetupOtherMsr(words, msr);
    }
  }

  lemma SetupVmxMsr(words: seq<Bitops.Word>, msr: u32)
    requires |words| == MSR_BITMAP_WORDS && MSR_IA32_VMX_BASIC <= msr <= MSR_IA32_VMX_VMFUNC
    ensures Bitops.TestBit(HardwareSetupBitmap(words), ReadBitIndex(msr))
    ensures Bitops.TestBit(HardwareSetupBitmap(words), WriteBitIndex(msr))
  {
    HardwareSetupBits(words, msr);
    HardwareSetupBits(words, 0x4000 + msr);
  }

  lemma SetupWriteOnlyMsr(words: seq<Bitops.Word>, msr: u32)
    requires |words| == MSR_BITMAP_WORDS
    requires msr == BITMAP_APICBASE || msr == BITMAP_X2APIC_ICR || msr == BITMAP_EFER
    ensures !Bitops.TestBit(HardwareSetupBitmap(words), ReadBitIndex(msr))
    ensures Bitops.TestBit(HardwareSetupBitmap(words), WriteBitIndex(msr))
  {
    InterceptionBitsDistinct(msr, msr);
    HardwareSetupBits(words, ReadBitIndex(msr));
    HardwareSetupBits(words, WriteBitIndex(msr));
  }

  lemma SetupOtherMsr(words: seq<Bitops.Word>, msr: u32)
    requires |words| == MSR_BITMAP_WORDS && Controllable(msr)
    requires !(MSR_IA32_VMX_BASIC <= msr <= MSR_IA32_VMX_VMFUNC)
    requires msr != BITMAP_APICBASE && msr != BITMAP_X2APIC_ICR && msr != BITMAP_EFER
    ensures Bitops.TestBit(HardwareSetupBitmap(words), ReadBitIndex(msr)) == Bitops.TestBit(words, ReadBitIndex(msr))
    ensures Bitops.TestBit(HardwareSetupBitmap(words), WriteBitIndex(msr)) == Bitops.TestBit(words, WriteBitIndex(msr))
  {
    InterceptionBitsDistinct(msr, BITMAP_APICBASE);
    InterceptionBitsDistinct(msr, BITMAP_X2APIC_ICR);
    InterceptionBitsDistinct(msr, BITMAP_EFER);
    HardwareSetupBits(words, ReadBitIndex(msr));
    HardwareSetupBits(words, WriteBitIndex(msr));
  }

  /**
   * `vmx_hardware_setup` after `setup_vmcs_config`: ept is
   * `vmx_capability.ept`.  ok is false for the two panics, which leave the
   * bitmap untouched; otherwise the bitmap is rewritten in place.
   */
  method HardwareSetup(msrBitmap: array<Bitops.Word>, ept: bv64) returns (ok: bool)
    requires msrBitmap.Length == MSR_BITMAP_WORDS
    modifies msrBitmap
    ensures ok <==> ept & VMX_EPT_2MB_PAGE_BIT != 0 && ept & VMX_EPT_PAGE_WALK_4_BIT != 0
    ensures ok ==> msrBitmap[..] == HardwareSetupBitmap(old(msrBitmap[..]))
    ensures !ok ==> msrBitmap[..] == old(msrBitmap[..])
  {
    if ept & VMX_EPT_2MB_PAGE_BIT == 0 {
      return false;  // no support for 2MB EPT pages
    }
    if ept & VMX_EPT_PAGE_WALK_4_BIT == 0 {
      return false;  // no support for 4-level EPT
    }
    ghost var start := msrBitmap[..];
    SetMsrInterception(msrBitmap, BITMAP_APICBASE, false, true);
    SetMsrInterception(msrBitmap, BITMAP_X2APIC_ICR, false, true);
    ghost var icr := msrBitmap[..];
    var i: u32 := MSR_IA32_VMX_BASIC;
    while i <= MSR_IA32_VMX_VMFUNC
      invariant MSR_IA32_VMX_BASIC <= i <= MSR_IA32_VMX_VMFUNC + 1
      invariant msrBitmap[..] == InterceptRange(icr, MSR_IA32_VMX_BASIC, i)
    {
      SetMsrInterception(msrBitmap, i, true, true);
      i := i + 1;
    }
    SetMsrInterception(msrBitmap, BITMAP_EFER, false, true);
    ok := true;
  }

  // ---------------------------------------------------------------------
  // Segments and their access rights

  /** `struct kvm_segment` (the padding byte is not modelled). */
  datatype Segment = Segment(base: bv64, limit: bv64, selector: bv64, segType: bv64, present: bv64, dpl: bv64,
                             db: bv64, s: bv64, l: bv64, g: bv64, avl: bv64, unusable: bv64)

  /** `vmx_segment_access_rights`. */
  function AccessRights(v: Segment): bv64
  {
    if v.unusable != 0 || v.present == 0 then
      1 << 16
    else
      UsableRights(v.segType, v.s, v.dpl, v.present, v.avl & 1, v.l, v.db, v.g)
  }

  /** The access-rights word of a usable segment, with avl already reduced to its low bit. */
  function UsableRights(segType: bv64, s: bv64, dpl: bv64, present: bv64, avlBit: bv64, l: bv64, db: bv64, g: bv64): bv64
  {
    (segType & 15) | ((s & 1) << 4) | ((dpl & 3) << 5) | ((present & 1) << 7) |
    (avlBit << 12) | ((l & 1) << 13) | ((db & 1) << 14) | ((g & 1) << 15)
  }

  /** The decoding half of `vmx_get_segment`, from the four field values read. */
  function DecodeSegment(base: bv64, limit: bv64, selector: bv64, arField: bv64): Segment
  {
    var ar := Low32(arField);
    var unusable := (ar >> 16) & 1;
    Segment(base, Low32(limit), selector & 0xffff, ar & 15, if unusable != 0 then 0 else 1, (ar >> 5) & 3,
            (ar >> 14) & 1, (ar >> 4) & 1, (ar >> 13) & 1, (ar >> 15) & 1, (ar >> 12) & 1, unusable)
  }

  /** A usable, present segment whose fields fit their C types and their AR bit fields. */
  predicate Encodable(v: Segment)
  {
    v.unusable == 0 && v.present == 1 && v.limit >> 32 == 0 && v.selector >> 16 == 0 &&
    v.segType < 16 && v.s < 2 && v.dpl < 4 && v.avl < 2 && v.l < 2 && v.db < 2 && v.g < 2
  }

  /** The VMCS fields of a segment register: selector, base, limit and access rights. */
  datatype SegmentFields = SegmentFields(selector: Field, base: Field, limit: Field, arBytes: Field)

  /**
   * `kvm_vmx_segment_fields[seg]`: the GUEST_<seg>_* encodings.  The
   * encodings go ES, CS, SS, DS, FS, GS, LDTR, TR, while VCPU_SREG_* puts TR
   * before LDTR.
   */
  function SegmentFieldsOf(seg: nat): (sf: SegmentFields)
    requires seg <= VCPU_SREG_LDTR
    ensures Kind(sf.selector) == 0 && Kind(sf.limit) == 2 && Kind(sf.arBytes) == 2 && Kind(sf.base) == 3
    ensures |{sf.selector, sf.base, sf.limit, sf.arBytes}| == 4
  {
    var k := if seg == VCPU_SREG_TR then 7 else if seg == VCPU_SREG_LDTR then 6 else seg;
    SegmentFields(0x0800 + 2 * k, 0x6806 + 2 * k, 0x4800 + 2 * k, 0x4814 + 2 * k)
  }

  function SegmentFieldSet(seg: nat): set<Field>
    requires seg <= VCPU_SREG_LDTR
  {
    var sf := SegmentFieldsOf(seg);
    {sf.selector, sf.base, sf.limit, sf.arBytes}
  }

  /** `vmx_set_segment`: base, limit, selector, then the access rights. */
  function SetSegment(v: Vmcs, s: Segment, seg: nat): (r: Vmcs)
    requires seg <= VCPU_SREG_LDTR
    ensures forall f :: f !in SegmentFieldSet(seg) ==> VmRead(r, f) == VmRead(v, f)
  {
    var sf := SegmentFieldsOf(seg);
    VmWrite(VmWrite(VmWrite(VmWrite(v, sf.base, s.base), sf.limit, s.limit), sf.selector, s.selector), sf.arBytes, AccessRights(s))
  }

  /** `vmx_get_segment`. */
  function GetSegment(v: Vmcs, seg: nat): Segment
    requires seg <= VCPU_SREG_LDTR
  {
    var sf := SegmentFieldsOf(seg);
    DecodeSegment(VmRead(v, sf.base), VmRead(v, sf.limit), VmRead(v, sf.selector), VmRead(v, sf.arBytes))
  }

  /** Decoding the access rights of an encodable segment gives its fields back. */
  lemma AccessRightsRoundTrip(v: Segment)
    requires Encodable(v)
    ensures DecodeSegment(v.base, v.limit, v.selector, AccessRights(v)) == v
  {
  }

  /**
   * An unusable or not-present segment is encoded as the unusable bit (bit
   * 16) alone, and reads back unusable and not present.
   */
  lemma UnusableAccessRights(v: Segment)
    requires v.unusable != 0 || v.present == 0
    ensures AccessRights(v) == 0x1_0000
    ensures DecodeSegment(v.base, v.limit, v.selector, AccessRights(v)).unusable == 1
    ensures DecodeSegment(v.base, v.limit, v.selector, AccessRights(v)).present == 0
  {
  }

  /** Writing an encodable segment with vmx_set_segment and reading it with vmx_get_segment round-trips. */
  lemma SegmentRoundTrip(v: Vmcs, s: Segment, seg: nat)
    requires seg <= VCPU_SREG_LDTR && Encodable(s)
    ensures GetSegment(SetSegment(v, s, seg), seg) == s
  {
    var sf := SegmentFieldsOf(seg);
    var r := SetSegment(v, s, seg);
    assert VmRead(r, sf.base) == s.base && VmRead(r, sf.limit) == s.limit;
    assert VmRead(r, sf.selector) == s.selector && VmRead(r, sf.arBytes) == AccessRights(s);
    AccessRightsRoundTrip(s);
  }

  // ---------------------------------------------------------------------
  // CR0, CR3, CR4 and long mode

  const EFER_SCE: bv64 := 1 << 0
  const EFER_LME: bv64 := 1 << 8
  const EFER_LMA: bv64 := 1 << 10
  const X86_CR0_NE: bv64 := 1 << 5
  const X86_CR0_WP: bv64 := 1 << 16
  const X86_CR0_PG: bv64 := 1 << 31
  const X86_CR4_VMXE: bv64 := 1 << 13
  const KVM_GUEST_CR0_ALWAYS_ON: bv64 := X86_CR0_WP | X86_CR0_NE
  const KVM_GUEST_CR4_ALWAYS_ON: bv64 := X86_CR4_VMXE
  const VM_ENTRY_IA32E_MODE: bv64 := 0x200
  const VMX_AR_TYPE_MASK: bv64 := 0x0f
  const VMX_AR_TYPE_BUSY_64_TSS: bv64 := 11

  /** The VM-entry control "IA-32e mode guest". */
  predicate Ia32eMode(v: Vmcs) { EntryControls(v) & VM_ENTRY_IA32E_MODE != 0 }
  /** EFER.LMA: long mode active. */
  predicate Lma(v: Vmcs) { GuestEfer(v) & EFER_LMA != 0 }
  /** EFER.LME: long mode enabled. */
  predicate Lme(v: Vmcs) { GuestEfer(v) & EFER_LME != 0 }
  /** CR0.PG. */
  predicate Paging(v: Vmcs) { GuestCr0(v) & X86_CR0_PG != 0 }
  /** The type in TR's access rights is a busy 64-bit TSS. */
  predicate TrBusy(v: Vmcs) { TrAccessRights(v) & VMX_AR_TYPE_MASK == VMX_AR_TYPE_BUSY_64_TSS }

  /** The consistency requirements the source states before enter_lmode: LMA == IA-32e mode == PG && LME. */
  predicate LongModeConsistent(v: Vmcs)
  {
    (Lma(v) <==> Ia32eMode(v)) && (Lma(v) <==> Paging(v) && Lme(v))
  }

  /** The VM_ENTRY_CONTROLS update of enter_lmode. */
  function SetIa32eMode(v: Vmcs): (r: Vmcs)
    ensures forall f :: f != VM_ENTRY_CONTROLS ==> VmRead(r, f) == VmRead(v, f)
  {
    VmWrite(v, VM_ENTRY_CONTROLS, EntryControls(v) | VM_ENTRY_IA32E_MODE)
  }

  /** The VM_ENTRY_CONTROLS update of exit_lmode. */
  function ClearIa32eMode(v: Vmcs): (r: Vmcs)
    ensures forall f :: f != VM_ENTRY_CONTROLS ==> VmRead(r, f) == VmRead(v, f)
  {
    VmWrite(v, VM_ENTRY_CONTROLS, EntryControls(v) & !VM_ENTRY_IA32E_MODE)
  }

  /** The GUEST_IA32_EFER update of enter_lmode. */
  function SetLma(v: Vmcs): (r: Vmcs)
    ensures forall f :: f != GUEST_IA32_EFER ==> VmRead(r, f) == VmRead(v, f)
  {
    VmWrite(v, GUEST_IA32_EFER, GuestEfer(v) | EFER_LMA)
  }

  /** The GUEST_IA32_EFER update of exit_lmode. */
  function ClearLma(v: Vmcs): (r: Vmcs)
    ensures forall f :: f != GUEST_IA32_EFER ==> VmRead(r, f) == VmRead(v, f)
  {
    VmWrite(v, GUEST_IA32_EFER, GuestEfer(v) & !EFER_LMA)
  }

  /** The "tss fixup for long mode" of enter_lmode. */
  function MarkTrBusy(v: Vmcs): (r: Vmcs)
    ensures forall f :: f != GUEST_TR_AR_BYTES ==> VmRead(r, f) == VmRead(v, f)
  {
    var guestTrAr := TrAccessRights(v);
    if guestTrAr & VMX_AR_TYPE_MASK != VMX_AR_TYPE_BUSY_64_TSS then
      VmWrite(v, GUEST_TR_AR_BYTES, (guestTrAr & !VMX_AR_TYPE_MASK) | VMX_AR_TYPE_BUSY_64_TSS)
    else
      v
  }

  /** `enter_lmode`. */
  function EnterLmode(v: Vmcs): Vmcs
  {
    MarkTrBusy(SetLma(SetIa32eMode(v)))
  }

  /** `exit_lmode`. */
  function ExitLmode(v: Vmcs): Vmcs
  {
    ClearLma(ClearIa32eMode(v))
  }

  /** The IA-32e mode control is set, and no other entry control changes. */
  lemma SetIa32eModeEffects(v: Vmcs)
    ensures Ia32eMode(SetIa32eMode(v))
    ensures EntryControls(SetIa32eMode(v)) & !VM_ENTRY_IA32E_MODE == EntryControls(v) & !VM_ENTRY_IA32E_MODE
  {
    var x := VmRead(v, VM_ENTRY_CONTROLS);
    Low32Or(x, VM_ENTRY_IA32E_MODE);
    OrSets(Low32(x), VM_ENTRY_IA32E_MODE);
    OrKeepsOthers(Low32(x), VM_ENTRY_IA32E_MODE);
  }

  /** The IA-32e mode control is cleared, and no other entry control changes. */
  lemma ClearIa32eModeEffects(v: Vmcs)
    ensures !Ia32eMode(ClearIa32eMode(v))
    ensures EntryControls(ClearIa32eMode(v)) & !VM_ENTRY_IA32E_MODE == EntryControls(v) & !VM_ENTRY_IA32E_MODE
  {
    var x := VmRead(v, VM_ENTRY_CONTROLS);
    Low32AndNot(x, VM_ENTRY_IA32E_MODE);
    AndNotClears(Low32(x), VM_ENTRY_IA32E_MODE);
    AndNotKeepsOthers(Low32(x), VM_ENTRY_IA32E_MODE);
  }

  /** EFER.LMA is set and EFER.LME kept. */
  lemma SetLmaEffects(v: Vmcs)
    ensures Lma(SetLma(v)) && Lme(SetLma(v)) == Lme(v)
  {
    var x := VmRead(v, GUEST_IA32_EFER);
    OrSets(x, EFER_LMA);
    OrKeepsBit(x, EFER_LMA, EFER_LME);
  }

  /** EFER.LMA is cleared and EFER.LME kept. */
  lemma ClearLmaEffects(v: Vmcs)
    ensures !Lma(ClearLma(v)) && Lme(ClearLma(v)) == Lme(v)
  {
    var x := VmRead(v, GUEST_IA32_EFER);
    AndNotClears(x, EFER_LMA);
    AndNotKeepsBit(x, EFER_LMA, EFER_LME);
  }

  /** TR's type becomes a busy 64-bit TSS and its other access-right bits are kept. */
  lemma MarkTrBusyEffects(v: Vmcs)
    ensures TrBusy(MarkTrBusy(v))
    ensures TrAccessRights(MarkTrBusy(v)) & !VMX_AR_TYPE_MASK == TrAccessRights(v) & !VMX_AR_TYPE_MASK
  {
    MarkTrBusyType(v);
    MarkTrBusyOthers(v);
  }

  lemma TrTypeBits(x: bv64)
    ensures Low32((Low32(x) & !VMX_AR_TYPE_MASK) | VMX_AR_TYPE_BUSY_64_TSS) & VMX_AR_TYPE_MASK == VMX_AR_TYPE_BUSY_64_TSS
  {
  }

  lemma TrOtherBits(x: bv64)
    ensures Low32((Low32(x) & !VMX_AR_TYPE_MASK) | VMX_AR_TYPE_BUSY_64_TSS) & !VMX_AR_TYPE_MASK == Low32(x) & !VMX_AR_TYPE_MASK
  {
  }

  lemma MarkTrBusyType(v: Vmcs)
    ensures TrBusy(MarkTrBusy(v))
  {
    TrTypeBits(VmRead(v, GUEST_TR_AR_BYTES));
  }

  lemma MarkTrBusyOthers(v: Vmcs)
    ensures TrAccessRights(MarkTrBusy(v)) & !VMX_AR_TYPE_MASK == TrAccessRights(v) & !VMX_AR_TYPE_MASK
  {
    TrOtherBits(VmRead(v, GUEST_TR_AR_BYTES));
  }

  /**
   * enter_lmode sets IA-32e mode and LMA, leaves LME and CR0 alone, makes
   * TR's type a busy 64-bit TSS keeping every other access-right bit, and
   * writes no other field.
   */
  lemma EnterLmodeEffects(v: Vmcs)
    ensures Ia32eMode(EnterLmode(v)) && Lma(EnterLmode(v)) && TrBusy(EnterLmode(v))
    ensures Lme(EnterLmode(v)) == Lme(v) && VmRead(EnterLmode(v), GUEST_CR0) == VmRead(v, GUEST_CR0)
    ensures TrAccessRights(EnterLmode(v)) & !VMX_AR_TYPE_MASK == TrAccessRights(v) & !VMX_AR_TYPE_MASK
    ensures forall f :: f != VM_ENTRY_CONTROLS && f != GUEST_IA32_EFER && f != GUEST_TR_AR_BYTES ==>
      VmRead(EnterLmode(v), f) == VmRead(v, f)
  {
    var v1 := SetIa32eMode(v);
    var v2 := SetLma(v1);
    SetIa32eModeEffects(v);
    SetLmaEffects(v1);
    MarkTrBusyEffects(v2);
    assert TrAccessRights(v2) == TrAccessRights(v);
    assert Ia32eMode(v2) && Lma(v2);
  }

  /** exit_lmode clears IA-32e mode and LMA, and leaves LME, CR0 and every other field alone. */
  lemma ExitLmodeEffects(v: Vmcs)
    ensures !Ia32eMode(ExitLmode(v)) && !Lma(ExitLmode(v))
    ensures Lme(ExitLmode(v)) == Lme(v) && VmRead(ExitLmode(v), GUEST_CR0) == VmRead(v, GUEST_CR0)
    ensures forall f :: f != VM_ENTRY_CONTROLS && f != GUEST_IA32_EFER ==> VmRead(ExitLmode(v), f) == VmRead(v, f)
  {
    var v1 := ClearIa32eMode(v);
    ClearIa32eModeEffects(v);
    ClearLmaEffects(v1);
    assert !Ia32eMode(v1);
  }

  /** The final write of vmx_set_cr0: the guest's value with WP and NE forced on. */
  function WriteCr0(v: Vmcs, cr0: bv64): (r: Vmcs)
    ensures forall f :: f != GUEST_CR0 ==> VmRead(r, f) == VmRead(v, f)
  {
    VmWrite(v, GUEST_CR0, cr0 | KVM_GUEST_CR0_ALWAYS_ON)
  }

  /**
   * The first part of `vmx_set_cr0`: with EFER.LME set, a PG 0->1
   * transition enters and a 1->0 transition leaves long mode.
   */
  function SwitchLongMode(v: Vmcs, cr0: bv64): Vmcs
  {
    if Lme(v) then
      var oldCr0 := GuestCr0(v);
      var entered := if oldCr0 & X86_CR0_PG == 0 && cr0 & X86_CR0_PG != 0 then EnterLmode(v) else v;
      if oldCr0 & X86_CR0_PG != 0 && cr0 & X86_CR0_PG == 0 then ExitLmode(entered) else entered
    else v
  }

  /** `vmx_set_cr0`: the long-mode switch, then the CR0 write. */
  function SetCr0(v: Vmcs, cr0: bv64): Vmcs
  {
    WriteCr0(SwitchLongMode(v, cr0), cr0)
  }

  /** The CR0 write stores what the guest asked for with WP and NE forced on; the PG bit is the guest's. */
  lemma WriteCr0Value(v: Vmcs, cr0: bv64)
    ensures GuestCr0(WriteCr0(v, cr0)) & KVM_GUEST_CR0_ALWAYS_ON == KVM_GUEST_CR0_ALWAYS_ON
    ensures GuestCr0(WriteCr0(v, cr0)) & !KVM_GUEST_CR0_ALWAYS_ON == cr0 & !KVM_GUEST_CR0_ALWAYS_ON
  {
    OrSets(cr0, KVM_GUEST_CR0_ALWAYS_ON);
    OrKeepsOthers(cr0, KVM_GUEST_CR0_ALWAYS_ON);
  }

  /** The CR0 write keeps the guest's PG bit. */
  lemma WriteCr0Paging(v: Vmcs, cr0: bv64)
    ensures Paging(WriteCr0(v, cr0)) <==> cr0 & X86_CR0_PG != 0
  {
    Cr0PagingBit(cr0);
  }

  lemma Cr0PagingBit(cr0: bv64)
    ensures (cr0 | KVM_GUEST_CR0_ALWAYS_ON) & X86_CR0_PG == cr0 & X86_CR0_PG
  {
  }

  /** After vmx_set_cr0 the guest's CR0 is what it asked for with WP and NE forced on. */
  lemma SetCr0Value(v: Vmcs, cr0: bv64)
    ensures GuestCr0(SetCr0(v, cr0)) & KVM_GUEST_CR0_ALWAYS_ON == KVM_GUEST_CR0_ALWAYS_ON
    ensures GuestCr0(SetCr0(v, cr0)) & !KVM_GUEST_CR0_ALWAYS_ON == cr0 & !KVM_GUEST_CR0_ALWAYS_ON
    ensures Paging(SetCr0(v, cr0)) <==> cr0 & X86_CR0_PG != 0
  {
    WriteCr0Value(SwitchLongMode(v, cr0), cr0);
    WriteCr0Paging(SwitchLongMode(v, cr0), cr0);
  }

  /** The long-mode state vmx_set_cr0 leaves before its CR0 write. */
  lemma SetCr0LongMode(v: Vmcs, cr0: bv64)
    ensures Lme(SetCr0(v, cr0)) == Lme(v) && Paging(SetCr0(v, cr0)) == (cr0 & X86_CR0_PG != 0)
    ensures Lme(v) && !Paging(v) && cr0 & X86_CR0_PG != 0 ==>
      Ia32eMode(SetCr0(v, cr0)) && Lma(SetCr0(v, cr0)) && TrBusy(SetCr0(v, cr0))
    ensures Lme(v) && Paging(v) && cr0 & X86_CR0_PG == 0 ==> !Ia32eMode(SetCr0(v, cr0)) && !Lma(SetCr0(v, cr0))
    ensures !Lme(v) || (Paging(v) <==> cr0 & X86_CR0_PG != 0) ==>
      VmRead(SetCr0(v, cr0), VM_ENTRY_CONTROLS) == VmRead(v, VM_ENTRY_CONTROLS) &&
      VmRead(SetCr0(v, cr0), GUEST_IA32_EFER) == VmRead(v, GUEST_IA32_EFER)
  {
    var w := SwitchLongMode(v, cr0);
    WriteCr0Paging(w, cr0);
    if Lme(v) && !Paging(v) && cr0 & X86_CR0_PG != 0 {
      EnterLmodeEffects(v);
      assert w == EnterLmode(v);
    } else if Lme(v) && Paging(v) && cr0 & X86_CR0_PG == 0 {
      ExitLmodeEffects(v);
      assert w == ExitLmode(v);
    } else {
      assert w == v;
    }
  }

  /** vmx_set_cr0 keeps the long-mode consistency requirements. */
  lemma SetCr0KeepsConsistent(v: Vmcs, cr0: bv64)
    requires LongModeConsistent(v)
    ensures LongModeConsistent(SetCr0(v, cr0))
  {
    SetCr0LongMode(v, cr0);
  }

  /** `vmx_set_cr3`: the guest's CR3 as given; nothing else is written. */
  function SetCr3(v: Vmcs, cr3: bv64): (r: Vmcs)
    ensures GuestCr3(r) == cr3
    ensures forall f :: f != GUEST_CR3 ==> VmRead(r, f) == VmRead(v, f)
  {
    VmWrite(v, GUEST_CR3, cr3)
  }

  /** `vmx_set_cr4`. */
  function SetCr4(v: Vmcs, cr4: bv64): (r: Vmcs)
    ensures forall f :: f != GUEST_CR4 ==> VmRead(r, f) == VmRead(v, f)
  {
    VmWrite(v, GUEST_CR4, cr4 | KVM_GUEST_CR4_ALWAYS_ON)
  }

  /** The guest's CR4 is what it asked for with VMXE forced on. */
  lemma SetCr4Value(v: Vmcs, cr4: bv64)
    ensures GuestCr4(SetCr4(v, cr4)) & KVM_GUEST_CR4_ALWAYS_ON == KVM_GUEST_CR4_ALWAYS_ON
    ensures GuestCr4(SetCr4(v, cr4)) & !KVM_GUEST_CR4_ALWAYS_ON == cr4 & !KVM_GUEST_CR4_ALWAYS_ON
  {
    assert GuestCr4(SetCr4(v, cr4)) == cr4 | KVM_GUEST_CR4_ALWAYS_ON;
    OrSets(cr4, KVM_GUEST_CR4_ALWAYS_ON);
    OrKeepsOthers(cr4, KVM_GUEST_CR4_ALWAYS_ON);
  }

  // ---------------------------------------------------------------------
  // gpa2hpa: the 4-level EPT walk

  /** Physical memory as the 64-bit word at each byte address (`__va` is the identity). */
  type PhysWords = bv64 -> bv64

  /** `shifts[i]`. */
  function Shift(i: nat): bv64
    requires i < 4
  {
    [39, 30, 21, 12][i]
  }

  /** `masks[i]`: the address bits an entry at level i supplies for a large page. */
  function Mask(i: nat): bv64
    requires i < 4
  {
    [0xffff_ff80_0000_0000, 0xffff_ffff_c000_0000, 0xffff_ffff_ffe0_0000, 0xffff_ffff_ffff_f000][i]
  }

  /** Bit 0 of an EPT entry: the read permission the walk asserts. */
  predicate Readable(entry: bv64) { entry & 1 != 0 }

  /** Bit 7 of an EPT entry: the entry maps a large page. */
  predicate LargePage(entry: bv64) { entry & (1 << 7) != 0 }

  /** The next table an entry points to: `entry & ~0xfff`. */
  function NextTable(entry: bv64): bv64 { entry & !0xfff }

  /** The host address of a large page at level i: `(entry & masks[i]) | (gpa & ~masks[i])`. */
  function LargePageAddress(entry: bv64, gpa: bv64, i: nat): bv64
    requires i < 4
  {
    (entry & Mask(i)) | (gpa & !Mask(i))
  }

  /** The host address of a 4 KiB page: `(entry & ~0xfff) | (gpa & 0xfff)`. */
  function PageAddress(entry: bv64, gpa: bv64): bv64
  {
    (entry & !0xfff) | (gpa & 0xfff)
  }

  /** The entry of the level-i table at `table` that translates gpa: `entries[(gpa >> shifts[i]) & 0x1ff]`. */
  function EptEntry(mem: PhysWords, table: bv64, gpa: bv64, i: nat): bv64
    requires i < 4
  {
    mem(table + ((gpa >> Shift(i)) & 0x1ff) * 8)
  }

  /**
   * The walk of `gpa2hpa` from level i with `entries` at table and `entry`
   * the last entry read: None is a failed assertion (an entry without the
   * read bit, or a large page at level 0 or 3).
   */
  function EptWalk(mem: PhysWords, table: bv64, gpa: bv64, i: nat, entry: bv64): Option<bv64>
    requires i <= 4
    decreases 4 - i
  {
    if i == 4 then Some(PageAddress(entry, gpa))
    else if !Readable(EptEntry(mem, table, gpa, i)) then None
    else if LargePage(EptEntry(mem, table, gpa, i)) then
      if i == 1 || i == 2 then Some(LargePageAddress(EptEntry(mem, table, gpa, i), gpa, i)) else None
    else EptWalk(mem, NextTable(EptEntry(mem, table, gpa, i)), gpa, i + 1, EptEntry(mem, table, gpa, i))
  }

  /** The table indices the walk uses are pml4_index, pdpt_index, pd_index and pt_index of include/asm/mmu.h. */
  lemma EptIndices(gpa: bv64)
    ensures (gpa >> Shift(0)) & 0x1ff == Mmu.Pml4Index(gpa) && (gpa >> Shift(1)) & 0x1ff == Mmu.PdptIndex(gpa)
    ensures (gpa >> Shift(2)) & 0x1ff == Mmu.PdIndex(gpa) && (gpa >> Shift(3)) & 0x1ff == Mmu.PtIndex(gpa)
  {
  }

  /** A 4 KiB page keeps the low 12 bits of gpa and takes the rest from the entry. */
  lemma PageAddressBits(entry: bv64, gpa: bv64)
    ensures PageAddress(entry, gpa) & 0xfff == gpa & 0xfff
    ensures PageAddress(entry, gpa) & !0xfff == entry & !0xfff
  {
    FieldInsert(entry, 0xfff, gpa & 0xfff);
    FieldInsertOthers(entry, 0xfff, gpa & 0xfff);
  }

  /** A large page keeps the bits of gpa below its mask. */
  lemma LargePageOffsetBits(entry: bv64, gpa: bv64, i: nat)
    requires i < 4
    ensures LargePageAddress(entry, gpa, i) & !Mask(i) == gpa & !Mask(i)
  {
    MergeLow(entry, gpa, Mask(i));
  }

  /** A large page takes the bits under its mask from the entry. */
  lemma LargePageFrameBits(entry: bv64, gpa: bv64, i: nat)
    requires i < 4
    ensures LargePageAddress(entry, gpa, i) & Mask(i) == entry & Mask(i)
  {
    MergeHigh(entry, gpa, Mask(i));
  }

  /** Every mask covers at least the 4 KiB frame bits. */
  lemma MaskOffsetBits(i: nat)
    requires i < 4
    ensures Mask(i) & 0xfff == 0
  {
  }

  /** A large page keeps in particular the low 12 bits of gpa. */
  lemma LargePageOffset(entry: bv64, gpa: bv64, i: nat)
    requires i < 4
    ensures LargePageAddress(entry, gpa, i) & 0xfff == gpa & 0xfff
  {
    MaskOffsetBits(i);
    MergeKeepsBits(entry, gpa, Mask(i), 0xfff);
  }

  // One step of the walk each, for the offset proof below.

  lemma EptWalkNext(mem: PhysWords, table: bv64, gpa: bv64, i: nat, entry: bv64)
    requires i < 4 && Readable(EptEntry(mem, table, gpa, i)) && !LargePage(EptEntry(mem, table, gpa, i))
    ensures EptWalk(mem, table, gpa, i, entry)
         == EptWalk(mem, NextTable(EptEntry(mem, table, gpa, i)), gpa, i + 1, EptEntry(mem, table, gpa, i))
  {
  }

  lemma EptWalkReadable(mem: PhysWords, table: bv64, gpa: bv64, i: nat, entry: bv64)
    requires i < 4 && EptWalk(mem, table, gpa, i, entry).Some?
    ensures Readable(EptEntry(mem, table, gpa, i))
  {
  }

  lemma EptLeafOffset(mem: PhysWords, table: bv64, gpa: bv64, entry: bv64)
    ensures EptWalk(mem, table, gpa, 4, entry).value & 0xfff == gpa & 0xfff
  {
    assert EptWalk(mem, table, gpa, 4, entry).value == PageAddress(entry, gpa);
    PageAddressBits(entry, gpa);
  }

  lemma EptLargeOffset(mem: PhysWords, table: bv64, gpa: bv64, i: nat, entry: bv64)
    requires i < 4 && LargePage(EptEntry(mem, table, gpa, i)) && EptWalk(mem, table, gpa, i, entry).Some?
    ensures EptWalk(mem, table, gpa, i, entry).value & 0xfff == gpa & 0xfff
  {
    assert EptWalk(mem, table, gpa, i, entry).value == LargePageAddress(EptEntry(mem, table, gpa, i), gpa, i);
    LargePageOffset(EptEntry(mem, table, gpa, i), gpa, i);
  }

  /**
   * A successful walk keeps the page offset of gpa: the low 12 bits, for
   * a 4 KiB page as well as for a large one.
   */
  lemma {:induction false} EptWalkOffset(mem: PhysWords, table: bv64, gpa: bv64, i: nat, entry: bv64)
    requires i <= 4 && EptWalk(mem, table, gpa, i, entry).Some?
    ensures EptWalk(mem, table, gpa, i, entry).value & 0xfff == gpa & 0xfff
    decreases 4 - i
  {
    if i == 4 {
      EptLeafOffset(mem, table, gpa, entry);
    } else if LargePage(EptEntry(mem, table, gpa, i)) {
      EptLargeOffset(mem, table, gpa, i, entry);
    } else {
      EptWalkReadable(mem, table, gpa, i, entry);
      EptWalkNext(mem, table, gpa, i, entry);
      EptWalkOffset(mem, NextTable(EptEntry(mem, table, gpa, i)), gpa, i + 1, EptEntry(mem, table, gpa, i));
    }
  }

  /**
   * A present large-page entry at level 1 (1 GiB) or 2 (2 MiB) ends the
   * walk with the large-page address of that entry.
   */
  lemma EptLargePage(mem: PhysWords, table: bv64, gpa: bv64, i: nat, entry: bv64)
    requires i == 1 || i == 2
    requires Readable(EptEntry(mem, table, gpa, i)) && LargePage(EptEntry(mem, table, gpa, i))
    ensures EptWalk(mem, table, gpa, i, entry) == Some(LargePageAddress(EptEntry(mem, table, gpa, i), gpa, i))
  {
  }

  /** A large-page entry at level 0 or 3 fails the walk's assertion. */
  lemma EptMisplacedLargePage(mem: PhysWords, table: bv64, gpa: bv64, i: nat, entry: bv64)
    requires i == 0 || i == 3
    requires LargePage(EptEntry(mem, table, gpa, i))
    ensures EptWalk(mem, table, gpa, i, entry).None?
  {
  }

  /** `gpa2hpa(eptp, gpa)`: ok is false where an assertion of the walk fails. */
  method Gpa2Hpa(mem: PhysWords, eptp: bv64, gpa: bv64) returns (ok: bool, hpa: bv64)
    ensures ok == EptWalk(mem, eptp, gpa, 0, 0).Some?
    ensures ok ==> hpa == EptWalk(mem, eptp, gpa, 0, 0).value
  {
    var entries := eptp;
    var entry: bv64 := 0;
    var i := 0;
    while i < 4
      invariant 0 <= i <= 4
      invariant EptWalk(mem, eptp, gpa, 0, 0) == EptWalk(mem, entries, gpa, i, entry)
    {
      entry := EptEntry(mem, entries, gpa, i);
      if !Readable(entry) {  // must be readable
        return false, 0;
      }
      if LargePage(entry) {
        if !(i == 1 || i == 2) {
          return false, 0;
        }
        return true, LargePageAddress(entry, gpa, i);
      } else {
        // keep walking
        entries := NextTable(entry);
      }
      i := i + 1;
    }
    return true, PageAddress(entry, gpa);
  }

  // ---------------------------------------------------------------------
  // Skipping an emulated instruction

  const GUEST_INTR_STATE_STI: bv64 := 1
  const GUEST_INTR_STATE_MOV_SS: bv64 := 2
  const BLOCKING: bv64 := GUEST_INTR_STATE_STI | GUEST_INTR_STATE_MOV_SS

  /** `kvm_rip_write` (vmx_set_rip). */
  function SetRip(v: Vmcs, rip: bv64): Vmcs { VmWrite(v, GUEST_RIP, rip) }

  /** `vmx_set_rflags`. */
  function SetRflags(v: Vmcs, rflags: bv64): Vmcs { VmWrite(v, GUEST_RFLAGS, rflags) }

  /** The address of the next instruction: RIP plus the exit instruction length, modulo 2^64. */
  function NextRip(v: Vmcs): bv64 { GetRip(v) + InstructionLength(v) }

  /** The interruptibility state without STI and MOV-SS blocking. */
  function Unblocked(interruptibility: bv64): bv64 { interruptibility & !BLOCKING }

  /** The first half of `vmx_skip_emulated_instruction`: RIP moves past the instruction. */
  function AdvanceRip(v: Vmcs): Vmcs { SetRip(v, NextRip(v)) }

  /** The second half: `vmcs_write32(GUEST_INTERRUPTIBILITY_INFO, ...)` with the blocking bits cleared. */
  function ClearBlocking(v: Vmcs): Vmcs
  {
    VmWrite(v, GUEST_INTERRUPTIBILITY_INFO, Unblocked(Interruptibility(v)))
  }

  /** `vmx_skip_emulated_instruction` (through kvm_rip_read and kvm_rip_write). */
  function SkipInstruction(v: Vmcs): (r: Vmcs)
    ensures forall f :: f != GUEST_RIP && f != GUEST_INTERRUPTIBILITY_INFO ==> VmRead(r, f) == VmRead(v, f)
  {
    ClearBlocking(AdvanceRip(v))
  }

  /** RIP advances by the exit instruction length, modulo 2^64. */
  lemma SkipInstructionRip(v: Vmcs)
    ensures GetRip(SkipInstruction(v)) == GetRip(v) + InstructionLength(v)
  {
  }

  /** Of the interruptibility state only the STI and MOV-SS blocking bits change, and they are cleared. */
  lemma SkipInstructionBlocking(v: Vmcs)
    ensures Interruptibility(SkipInstruction(v)) & BLOCKING == 0
    ensures Interruptibility(SkipInstruction(v)) & !BLOCKING
         == Interruptibility(v) & !BLOCKING
  {
    var x := VmRead(v, GUEST_INTERRUPTIBILITY_INFO);
    assert VmRead(SkipInstruction(v), GUEST_INTERRUPTIBILITY_INFO) == Unblocked(Low32(x));
    UnblockedBits(x);
  }

  lemma UnblockedBits(x: bv64)
    ensures Low32(Unblocked(Low32(x))) & BLOCKING == 0
    ensures Low32(Unblocked(Low32(x))) & !BLOCKING == Low32(x) & !BLOCKING
  {
    Low32AndNot(x, BLOCKING);
    AndNotClears(Low32(x), BLOCKING);
    AndNotKeepsOthers(Low32(x), BLOCKING);
  }

  // ---------------------------------------------------------------------
  // SYSCALL and SYSRET (Intel SDM Vol. 2, SYSCALL and SYSRET)

  /** The guest state an exit handler sees: the saved general-purpose registers and the VMCS. */
  datatype Guest = Guest(regs: seq<bv64>, vmcs: Vmcs)

  predicate GuestValid(g: Guest) { |g.regs| == NR_VCPU_REGS }

  /** `NR_AUTOLOAD_MSRS`, and the order of MSR_SAVE_LIST in msr_autoload.guest. */
  const NR_AUTOLOAD_MSRS: nat := 8
  const SAVED_MSR_KERNEL_GS_BASE: nat := 0
  const SAVED_MSR_SYSCALL_MASK: nat := 1
  const SAVED_MSR_LSTAR: nat := 2
  const SAVED_MSR_STAR: nat := 3

  /**
   * The flat 64-bit code segment handle_syscall installs.  `avl` is the
   * uninitialised member of the local `struct kvm_segment`, whatever it holds.
   */
  function SyscallCs(star: bv64, avl: bv64): Segment
  {
    Segment(0, 0xfffff, (star >> 32) & 0xfffc, 11, 1, 0, 0, 1, 1, 1, avl, 0)
  }

  /** The flat data segment handle_syscall installs, with the selector truncated to 16 bits. */
  function SyscallSs(star: bv64, avl: bv64): Segment
  {
    Segment(0, 0xfffff, (((star >> 32) & 0xffff) + 8) & 0xffff, 3, 1, 0, 1, 1, 0, 1, avl, 0)
  }

  /** The DPL-3 64-bit code segment handle_sysret installs. */
  function SysretCs(star: bv64, avl: bv64): Segment
  {
    Segment(0, 0xfffff, ((((star >> 48) & 0xffff) + 16) & 0xffff) | 3, 11, 1, 3, 0, 1, 1, 1, avl, 0)
  }

  /** The DPL-3 data segment handle_sysret installs. */
  function SysretSs(star: bv64, avl: bv64): Segment
  {
    Segment(0, 0xfffff, ((((star >> 48) & 0xffff) + 8) & 0xffff) | 3, 3, 1, 3, 1, 1, 0, 1, avl, 0)
  }

  // The steps of the two handlers, each on the whole guest state.

  function SkipStep(g: Guest): Guest { Guest(g.regs, SkipInstruction(g.vmcs)) }

  /** `vcpu->regs[reg] = value`. */
  function SaveReg(g: Guest, reg: nat, value: bv64): Guest
    requires reg < |g.regs|
  {
    Guest(g.regs[reg := value], g.vmcs)
  }

  function JumpStep(g: Guest, rip: bv64): Guest { Guest(g.regs, SetRip(g.vmcs, rip)) }

  function FlagsStep(g: Guest, rflags: bv64): Guest { Guest(g.regs, SetRflags(g.vmcs, rflags)) }

  /** The two `vmx_set_segment` calls, CS first. */
  function SegmentsStep(g: Guest, cs: Segment, ss: Segment): Guest
  {
    Guest(g.regs, SetSegment(SetSegment(g.vmcs, cs, VCPU_SREG_CS), ss, VCPU_SREG_SS))
  }

  /** handle_syscall up to the RCX save: the instruction skipped, RCX the next RIP. */
  function SyscallEntry(g: Guest): Guest
    requires GuestValid(g)
  {
    SaveReg(SkipStep(g), VCPU_REGS_RCX, GetRip(SkipInstruction(g.vmcs)))
  }

  /** handle_syscall up to the RFLAGS update: RIP is LSTAR, R11 holds RFLAGS. */
  function SyscallJump(g: Guest, lstar: bv64): Guest
    requires GuestValid(g)
  {
    SaveReg(JumpStep(SyscallEntry(g), lstar), VCPU_REGS_R11, GetRflags(SyscallEntry(g).vmcs))
  }

  /** The RFLAGS value SYSCALL leaves: the old flags without the SFMASK bits. */
  function MaskFlags(rflags: bv64, mask: bv64): bv64 { rflags & !mask }

  /** `handle_syscall` on the guest state, with the saved guest MSRs. */
  function Syscall(g: Guest, msrs: seq<bv64>, csAvl: bv64, ssAvl: bv64): (r: Guest)
    requires GuestValid(g) && |msrs| == NR_AUTOLOAD_MSRS
    ensures GuestValid(r)
  {
    var jumped := SyscallJump(g, msrs[SAVED_MSR_LSTAR]);
    SegmentsStep(FlagsStep(jumped, MaskFlags(GetRflags(jumped.vmcs), msrs[SAVED_MSR_SYSCALL_MASK])),
                 SyscallCs(msrs[SAVED_MSR_STAR], csAvl), SyscallSs(msrs[SAVED_MSR_STAR], ssAvl))
  }

  /** The RFLAGS value SYSRET loads: R11 with the reserved and VM bits cleared and bit 1 set. */
  function SysretFlags(r11: bv64): bv64 { (r11 & 0x3c7fd7) | 2 }

  /** `handle_sysret` on the guest state. */
  function Sysret(g: Guest, msrs: seq<bv64>, csAvl: bv64, ssAvl: bv64): (r: Guest)
    requires GuestValid(g) && |msrs| == NR_AUTOLOAD_MSRS
    ensures r.regs == g.regs
  {
    SegmentsStep(FlagsStep(JumpStep(g, g.regs[VCPU_REGS_RCX]), SysretFlags(g.regs[VCPU_REGS_R11])),
                 SysretCs(msrs[SAVED_MSR_STAR], csAvl), SysretSs(msrs[SAVED_MSR_STAR], ssAvl))
  }

  /** A segment reads the same from two VMCSs that agree on its four fields. */
  lemma SameSegment(v: Vmcs, w: Vmcs, seg: nat)
    requires seg <= VCPU_SREG_LDTR
    requires VmRead(v, SegmentFieldsOf(seg).base) == VmRead(w, SegmentFieldsOf(seg).base)
    requires VmRead(v, SegmentFieldsOf(seg).limit) == VmRead(w, SegmentFieldsOf(seg).limit)
    requires VmRead(v, SegmentFieldsOf(seg).selector) == VmRead(w, SegmentFieldsOf(seg).selector)
    requires VmRead(v, SegmentFieldsOf(seg).arBytes) == VmRead(w, SegmentFieldsOf(seg).arBytes)
    ensures GetSegment(v, seg) == GetSegment(w, seg)
  {
  }

  /** Writing the SS fields after the CS fields leaves CS as written. */
  lemma CsThenSs(v: Vmcs, cs: Segment, ss: Segment)
    ensures GetSegment(SetSegment(SetSegment(v, cs, VCPU_SREG_CS), ss, VCPU_SREG_SS), VCPU_SREG_CS)
         == GetSegment(SetSegment(v, cs, VCPU_SREG_CS), VCPU_SREG_CS)
  {
    SameSegment(SetSegment(SetSegment(v, cs, VCPU_SREG_CS), ss, VCPU_SREG_SS), SetSegment(v, cs, VCPU_SREG_CS), VCPU_SREG_CS);
  }

  /** The segment writes leave RIP and RFLAGS alone. */
  lemma SegmentsStepFrame(g: Guest, cs: Segment, ss: Segment)
    ensures GetRip(SegmentsStep(g, cs, ss).vmcs) == GetRip(g.vmcs)
    ensures GetRflags(SegmentsStep(g, cs, ss).vmcs) == GetRflags(g.vmcs)
  {
    assert GUEST_RIP !in SegmentFieldSet(VCPU_SREG_CS) && GUEST_RIP !in SegmentFieldSet(VCPU_SREG_SS);
    assert GUEST_RFLAGS !in SegmentFieldSet(VCPU_SREG_CS) && GUEST_RFLAGS !in SegmentFieldSet(VCPU_SREG_SS);
  }

  /** Both segments read back as written, for encodable segments. */
  lemma SegmentsStepValue(g: Guest, cs: Segment, ss: Segment)
    requires Encodable(cs) && Encodable(ss)
    ensures GetSegment(SegmentsStep(g, cs, ss).vmcs, VCPU_SREG_CS) == cs
    ensures GetSegment(SegmentsStep(g, cs, ss).vmcs, VCPU_SREG_SS) == ss
  {
    SegmentRoundTrip(g.vmcs, cs, VCPU_SREG_CS);
    SegmentRoundTrip(SetSegment(g.vmcs, cs, VCPU_SREG_CS), ss, VCPU_SREG_SS);
    CsThenSs(g.vmcs, cs, ss);
  }

  /** vmx_set_segment keeps only bit 0 of avl, so the other bits make no difference to the VMCS. */
  lemma SetSegmentAvlBit(v: Vmcs, s: Segment, seg: nat)
    requires seg <= VCPU_SREG_LDTR
    ensures SetSegment(v, s, seg) == SetSegment(v, s.(avl := s.avl & 1), seg)
  {
    AccessRightsAvlBit(s);
  }

  lemma AccessRightsAvlBit(s: Segment)
    ensures AccessRights(s) == AccessRights(s.(avl := s.avl & 1))
  {
    var t := s.(avl := s.avl & 1);
    LowBitIdempotent(s.avl);
    SameRights(s.segType, s.s, s.dpl, s.present, t.avl & 1, s.avl & 1, s.l, s.db, s.g);
  }

  lemma SameRights(segType: bv64, s: bv64, dpl: bv64, present: bv64, a: bv64, b: bv64, l: bv64, db: bv64, g: bv64)
    requires a == b
    ensures UsableRights(segType, s, dpl, present, a, l, db, g) == UsableRights(segType, s, dpl, present, b, l, db, g)
  {
  }

  lemma LowBitIdempotent(x: bv64)
    ensures (x & 1) & 1 == x & 1
  {
  }

  lemma SegmentsStepAvlBit(g: Guest, cs: Segment, ss: Segment)
    ensures SegmentsStep(g, cs, ss) == SegmentsStep(g, cs.(avl := cs.avl & 1), ss.(avl := ss.avl & 1))
  {
    SetSegmentAvlBit(g.vmcs, cs, VCPU_SREG_CS);
    SetSegmentAvlBit(SetSegment(g.vmcs, cs, VCPU_SREG_CS), ss, VCPU_SREG_SS);
  }

  /**
   * SYSCALL: RCX holds the address of the next instruction and R11 the old
   * RFLAGS; no other general-purpose register changes.
   */
  lemma SyscallRegisters(g: Guest, msrs: seq<bv64>, csAvl: bv64, ssAvl: bv64)
    requires GuestValid(g) && |msrs| == NR_AUTOLOAD_MSRS
    ensures Syscall(g, msrs, csAvl, ssAvl).regs
         == g.regs[VCPU_REGS_RCX := GetRip(g.vmcs) + InstructionLength(g.vmcs)][VCPU_REGS_R11 := GetRflags(g.vmcs)]
  {
    SkipInstructionRip(g.vmcs);
  }

  /** SYSCALL: RIP is LSTAR and RFLAGS loses the SFMASK bits. */
  lemma SyscallControl(g: Guest, msrs: seq<bv64>, csAvl: bv64, ssAvl: bv64)
    requires GuestValid(g) && |msrs| == NR_AUTOLOAD_MSRS
    ensures GetRip(Syscall(g, msrs, csAvl, ssAvl).vmcs) == msrs[SAVED_MSR_LSTAR]
    ensures GetRflags(Syscall(g, msrs, csAvl, ssAvl).vmcs) == GetRflags(g.vmcs) & !msrs[SAVED_MSR_SYSCALL_MASK]
  {
    var jumped := SyscallJump(g, msrs[SAVED_MSR_LSTAR]);
    var flagged := FlagsStep(jumped, MaskFlags(GetRflags(jumped.vmcs), msrs[SAVED_MSR_SYSCALL_MASK]));
    SegmentsStepFrame(flagged, SyscallCs(msrs[SAVED_MSR_STAR], csAvl), SyscallSs(msrs[SAVED_MSR_STAR], ssAvl));
  }

  /**
   * SYSCALL: CS is STAR[47:32] & 0xfffc and SS that selector + 8, both
   * flat at DPL 0, CS a 64-bit code segment.  Whatever the uninitialised
   * avl members hold, only their low bit reaches the access rights.
   */
  lemma SyscallSegments(g: Guest, msrs: seq<bv64>, csAvl: bv64, ssAvl: bv64)
    requires GuestValid(g) && |msrs| == NR_AUTOLOAD_MSRS
    ensures GetSegment(Syscall(g, msrs, csAvl, ssAvl).vmcs, VCPU_SREG_CS) == SyscallCs(msrs[SAVED_MSR_STAR], csAvl & 1)
    ensures GetSegment(Syscall(g, msrs, csAvl, ssAvl).vmcs, VCPU_SREG_SS) == SyscallSs(msrs[SAVED_MSR_STAR], ssAvl & 1)
  {
    var star := msrs[SAVED_MSR_STAR];
    var jumped := SyscallJump(g, msrs[SAVED_MSR_LSTAR]);
    var flagged := FlagsStep(jumped, MaskFlags(GetRflags(jumped.vmcs), msrs[SAVED_MSR_SYSCALL_MASK]));
    SegmentsStepAvlBit(flagged, SyscallCs(star, csAvl), SyscallSs(star, ssAvl));
    assert SyscallCs(star, csAvl).(avl := csAvl & 1) == SyscallCs(star, csAvl & 1);
    assert SyscallSs(star, ssAvl).(avl := ssAvl & 1) == SyscallSs(star, ssAvl & 1);
    SyscallSegmentsEncodable(star, csAvl, ssAvl);
    SegmentsStepValue(flagged, SyscallCs(star, csAvl & 1), SyscallSs(star, ssAvl & 1));
  }

  lemma SyscallSegmentsEncodable(star: bv64, csAvl: bv64, ssAvl: bv64)
    ensures Encodable(SyscallCs(star, csAvl & 1)) && Encodable(SyscallSs(star, ssAvl & 1))
  {
  }

  lemma SysretSegmentsEncodable(star: bv64, csAvl: bv64, ssAvl: bv64)
    ensures Encodable(SysretCs(star, csAvl & 1)) && Encodable(SysretSs(star, ssAvl & 1))
  {
  }

  /** SYSRET to 64-bit code: RIP is RCX and RFLAGS is (R11 & 0x3c7fd7) | 2. */
  lemma SysretControl(g: Guest, msrs: seq<bv64>, csAvl: bv64, ssAvl: bv64)
    requires GuestValid(g) && |msrs| == NR_AUTOLOAD_MSRS
    ensures GetRip(Sysret(g, msrs, csAvl, ssAvl).vmcs) == g.regs[VCPU_REGS_RCX]
    ensures GetRflags(Sysret(g, msrs, csAvl, ssAvl).vmcs) == (g.regs[VCPU_REGS_R11] & 0x3c7fd7) | 2
  {
    var flagged := FlagsStep(JumpStep(g, g.regs[VCPU_REGS_RCX]), SysretFlags(g.regs[VCPU_REGS_R11]));
    SegmentsStepFrame(flagged, SysretCs(msrs[SAVED_MSR_STAR], csAvl), SysretSs(msrs[SAVED_MSR_STAR], ssAvl));
  }

  /**
   * SYSRET: CS is STAR[63:48] + 16 and SS STAR[63:48] + 8, both with RPL 3
   * at DPL 3, and the low bit of each avl member.
   */
  lemma SysretSegments(g: Guest, msrs: seq<bv64>, csAvl: bv64, ssAvl: bv64)
    requires GuestValid(g) && |msrs| == NR_AUTOLOAD_MSRS
    ensures GetSegment(Sysret(g, msrs, csAvl, ssAvl).vmcs, VCPU_SREG_CS) == SysretCs(msrs[SAVED_MSR_STAR], csAvl & 1)
    ensures GetSegment(Sysret(g, msrs, csAvl, ssAvl).vmcs, VCPU_SREG_SS) == SysretSs(msrs[SAVED_MSR_STAR], ssAvl & 1)
  {
    var star := msrs[SAVED_MSR_STAR];
    var flagged := FlagsStep(JumpStep(g, g.regs[VCPU_REGS_RCX]), SysretFlags(g.regs[VCPU_REGS_R11]));
    SegmentsStepAvlBit(flagged, SysretCs(star, csAvl), SysretSs(star, ssAvl));
    assert SysretCs(star, csAvl).(avl := csAvl & 1) == SysretCs(star, csAvl & 1);
    assert SysretSs(star, ssAvl).(avl := ssAvl & 1) == SysretSs(star, ssAvl & 1);
    SysretSegmentsEncodable(star, csAvl, ssAvl);
    SegmentsStepValue(flagged, SysretCs(star, csAvl & 1), SysretSs(star, ssAvl & 1));
  }

  // Selectors of include/asm/segment.h.
  const KERNEL_CS: bv64 := 2 * 8
  const KERNEL_DS: bv64 := 3 * 8
  const USER_DS: bv64 := 5 * 8 + 3
  const USER_CS: bv64 := 6 * 8 + 3

  /** The STAR value `syscall_init` writes: EDX = ((USER_CS - 16) << 16) | KERNEL_CS, EAX = 0. */
  const STAR_VALUE: bv64 := (((USER_CS - 16) << 16) | KERNEL_CS) << 32

  /**
   * With the kernel's STAR value the emulated SYSCALL lands on KERNEL_CS and
   * KERNEL_DS and the emulated SYSRET on USER_CS and USER_DS, the GDT layout
   * (user data between the 32-bit and 64-bit user code slots) SYSRET needs.
   */
  lemma StarSelectors(avl: bv64)
    ensures SyscallCs(STAR_VALUE, avl).selector == KERNEL_CS && SyscallSs(STAR_VALUE, avl).selector == KERNEL_DS
    ensures SysretCs(STAR_VALUE, avl).selector == USER_CS && SysretSs(STAR_VALUE, avl).selector == USER_DS
  {
  }

  // ---------------------------------------------------------------------
  // WRMSR

  const MSR_IA32_APICBASE: bv64 := 0x1b
  const MSR_IA32_APICBASE_ENABLE: bv64 := 1 << 11
  /** `APIC_BASE_MSR + (APIC_ICR >> 4)`: the x2APIC interrupt command register. */
  const MSR_X2APIC_ICR: bv64 := 0x800 + (0x300 >> 4)
  const MSR_EFER: bv64 := 0xc000_0080
  const APIC_DM_INIT: bv64 := 0x500
  const APIC_DM_STARTUP: bv64 := 0x600

  /** The MSR number WRMSR names: ECX, as `uint32_t msr`. */
  function WrmsrIndex(g: Guest): bv64
    requires GuestValid(g)
  {
    Low32(g.regs[VCPU_REGS_RCX])
  }

  /** The value WRMSR writes: EDX:EAX. */
  function WrmsrValue(g: Guest): bv64
    requires GuestValid(g)
  {
    EdxEax(g.regs[VCPU_REGS_RAX], g.regs[VCPU_REGS_RDX])
  }

  /** The APIC base value keeps the APIC enabled. */
  predicate ApicEnabled(val: bv64) { val & MSR_IA32_APICBASE_ENABLE != 0 }

  /** The delivery mode of an ICR value: bits 10:8. */
  function DeliveryMode(val: bv64): bv64 { val & 0x700 }

  /** An ICR write the VMM drops: INIT or STARTUP. */
  predicate DroppedIpi(val: bv64) { DeliveryMode(val) == APIC_DM_INIT || DeliveryMode(val) == APIC_DM_STARTUP }

  /** The guest EFER value stored: SCE cleared. */
  function ScrubEfer(val: bv64): bv64 { val & !EFER_SCE }

  /** What `handle_wrmsr` does besides the VMCS: the (msr, value) it passes to the host's WRMSR, if any. */
  datatype WrmsrResult = WrmsrResult(vmcs: Vmcs, passed: Option<(bv64, bv64)>)

  /**
   * `handle_wrmsr` on the guest state: None is a panic (an unknown MSR, or
   * an APIC base without the enable bit); the instruction is then skipped.
   */
  function Wrmsr(g: Guest): (r: Option<WrmsrResult>)
    requires GuestValid(g)
  {
    var msr := WrmsrIndex(g);
    var val := WrmsrValue(g);
    if msr == MSR_IA32_APICBASE then
      if !ApicEnabled(val) then None
      else Some(WrmsrResult(SkipInstruction(g.vmcs), Some((msr, val))))
    else if msr == MSR_X2APIC_ICR then
      if DroppedIpi(val) then Some(WrmsrResult(SkipInstruction(g.vmcs), None))
      else Some(WrmsrResult(SkipInstruction(g.vmcs), Some((msr, val))))
    else if msr == MSR_EFER then
      Some(WrmsrResult(SkipInstruction(VmWrite(g.vmcs, GUEST_IA32_EFER, ScrubEfer(val))), None))
    else None
  }

  /** Only the APIC base, the x2APIC ICR and EFER are handled, and the APIC base needs the enable bit. */
  lemma WrmsrPanics(g: Guest)
    requires GuestValid(g)
    ensures Wrmsr(g).None? <==>
      (WrmsrIndex(g) != MSR_IA32_APICBASE && WrmsrIndex(g) != MSR_X2APIC_ICR && WrmsrIndex(g) != MSR_EFER) ||
      (WrmsrIndex(g) == MSR_IA32_APICBASE && WrmsrValue(g) & MSR_IA32_APICBASE_ENABLE == 0)
  {
  }

  /**
   * What reaches the host: the APIC base value as written, an ICR value
   * unless its delivery mode is INIT or STARTUP, and nothing for EFER.
   */
  lemma WrmsrPassThrough(g: Guest)
    requires GuestValid(g) && Wrmsr(g).Some?
    ensures WrmsrIndex(g) == MSR_IA32_APICBASE ==> Wrmsr(g).value.passed == Some((WrmsrIndex(g), WrmsrValue(g)))
    ensures WrmsrIndex(g) == MSR_X2APIC_ICR ==>
      (Wrmsr(g).value.passed.None? <==> WrmsrValue(g) & 0x700 == APIC_DM_INIT || WrmsrValue(g) & 0x700 == APIC_DM_STARTUP)
    ensures Wrmsr(g).value.passed.Some? ==> Wrmsr(g).value.passed.value == (WrmsrIndex(g), WrmsrValue(g))
    ensures WrmsrIndex(g) == MSR_EFER ==> Wrmsr(g).value.passed.None?
  {
  }

  /**
   * The VMCS after WRMSR: EFER is the guest's value with SCE cleared, and
   * the instruction is skipped; the other MSRs leave the VMCS as the skip
   * leaves it.
   */
  lemma WrmsrVmcs(g: Guest)
    requires GuestValid(g) && Wrmsr(g).Some?
    ensures WrmsrIndex(g) == MSR_EFER ==> GuestEfer(Wrmsr(g).value.vmcs) == WrmsrValue(g) & !EFER_SCE
    ensures WrmsrIndex(g) != MSR_EFER ==> Wrmsr(g).value.vmcs == SkipInstruction(g.vmcs)
  {
  }

  // ---------------------------------------------------------------------
  // The virtual CPU

  /**
   * `struct vcpu_vmx` with its current VMCS: the register file, the guest
   * MSR values the processor stores at VM exit (msr_autoload.guest), and
   * the VMCS fields.
   */
  class VcpuVmx {
    const vcpu: Vcpu
    const guestMsrs: array<bv64>
    var vmcs: Vmcs

    ghost predicate Valid()
      reads this
    {
      vcpu.regs.Length == NR_VCPU_REGS && guestMsrs.Length == NR_AUTOLOAD_MSRS && vcpu.regs != guestMsrs
    }

    function State(): (g: Guest)
      reads this, vcpu.regs
      requires Valid()
      ensures GuestValid(g)
    {
      Guest(vcpu.regs[..], vmcs)
    }

    constructor(vcpu: Vcpu, guestMsrs: array<bv64>)
      requires vcpu.regs.Length == NR_VCPU_REGS && guestMsrs.Length == NR_AUTOLOAD_MSRS && vcpu.regs != guestMsrs
      ensures Valid() && this.vcpu == vcpu && this.guestMsrs == guestMsrs && vmcs == map[]
    {
      this.vcpu := vcpu;
      this.guestMsrs := guestMsrs;
      vmcs := map[];
    }

    /** `vmx_skip_emulated_instruction` (through kvm_rip_read and kvm_rip_write). */
    method SkipEmulatedInstruction()
      modifies this
      ensures vmcs == SkipInstruction(old(vmcs))
    {
      var rip := NextRip(vmcs);
      vmcs := SetRip(vmcs, rip);
      var interruptibility := Unblocked(Interruptibility(vmcs));
      vmcs := VmWrite(vmcs, GUEST_INTERRUPTIBILITY_INFO, interruptibility);
    }

    /** `vmx_set_segment`. */
    method SetSegmentOf(s: Segment, seg: nat)
      requires seg <= VCPU_SREG_LDTR
      modifies this
      ensures vmcs == SetSegment(old(vmcs), s, seg)
    {
      var sf := SegmentFieldsOf(seg);
      vmcs := VmWrite(vmcs, sf.base, s.base);
      vmcs := VmWrite(vmcs, sf.limit, s.limit);
      vmcs := VmWrite(vmcs, sf.selector, s.selector);
      vmcs := VmWrite(vmcs, sf.arBytes, AccessRights(s));
    }

    /** `vmx_set_cr0`. */
    method SetCr0Of(cr0: bv64)
      modifies this
      ensures vmcs == SetCr0(old(vmcs), cr0)
    {
      if GuestEfer(vmcs) & EFER_LME != 0 {
        var oldCr0 := GuestCr0(vmcs);
        if oldCr0 & X86_CR0_PG == 0 && cr0 & X86_CR0_PG != 0 {
          vmcs := EnterLmode(vmcs);
        }
        if oldCr0 & X86_CR0_PG != 0 && cr0 & X86_CR0_PG == 0 {
          vmcs := ExitLmode(vmcs);
        }
      }
      vmcs := VmWrite(vmcs, GUEST_CR0, cr0 | KVM_GUEST_CR0_ALWAYS_ON);
    }

    /** `vmx_set_cr4`. */
    method SetCr4Of(cr4: bv64)
      modifies this
      ensures vmcs == SetCr4(old(vmcs), cr4)
    {
      vmcs := VmWrite(vmcs, GUEST_CR4, cr4 | KVM_GUEST_CR4_ALWAYS_ON);
    }

    /** `handle_syscall`; csAvl and ssAvl are the uninitialised `avl` members of its locals. */
    method HandleSyscall(csAvl: bv64, ssAvl: bv64)
      requires Valid()
      modifies this, vcpu.regs
      ensures State() == Syscall(old(State()), guestMsrs[..], csAvl, ssAvl)
    {
      var rip := guestMsrs[SAVED_MSR_LSTAR];
      SkipEmulatedInstruction();
      vcpu.RegisterWrite(VCPU_REGS_RCX, GetRip(vmcs));
      vmcs := SetRip(vmcs, rip);
      var rflags := GetRflags(vmcs);
      vcpu.RegisterWrite(VCPU_REGS_R11, rflags);
      var syscallMask := guestMsrs[SAVED_MSR_SYSCALL_MASK];
      vmcs := SetRflags(vmcs, MaskFlags(rflags, syscallMask));
      SetSegmentOf(SyscallCs(guestMsrs[SAVED_MSR_STAR], csAvl), VCPU_SREG_CS);
      SetSegmentOf(SyscallSs(guestMsrs[SAVED_MSR_STAR], ssAvl), VCPU_SREG_SS);
    }

    /** `handle_sysret`. */
    method HandleSysret(csAvl: bv64, ssAvl: bv64)
      requires Valid()
      modifies this
      ensures State() == Sysret(old(State()), guestMsrs[..], csAvl, ssAvl)
    {
      vmcs := SetRip(vmcs, vcpu.RegisterRead(VCPU_REGS_RCX));
      vmcs := SetRflags(vmcs, SysretFlags(vcpu.RegisterRead(VCPU_REGS_R11)));
      SetSegmentOf(SysretCs(guestMsrs[SAVED_MSR_STAR], csAvl), VCPU_SREG_CS);
      SetSegmentOf(SysretSs(guestMsrs[SAVED_MSR_STAR], ssAvl), VCPU_SREG_SS);
    }

    /**
     * `handle_wrmsr`: ok is false for a panic, which happens before any
     * state changes; passed is the host WRMSR it performs, if any.
     */
    method HandleWrmsr() returns (ok: bool, passed: Option<(bv64, bv64)>)
      requires Valid()
      modifies this
      ensures ok == Wrmsr(old(State())).Some?
      ensures ok ==> vmcs == Wrmsr(old(State())).value.vmcs && passed == Wrmsr(old(State())).value.passed
      ensures !ok ==> vmcs == old(vmcs)
    {
      var msr := WrmsrIndex(State());
      var val := WrmsrValue(State());
      passed := None;
      if msr == MSR_IA32_APICBASE {
        if !ApicEnabled(val) {
          return false, None;
        }
        passed := Some((msr, val));
      } else if msr == MSR_X2APIC_ICR {
        if DeliveryMode(val) == APIC_DM_INIT {
          // silently drop INIT
        } else if DeliveryMode(val) == APIC_DM_STARTUP {
          // silently drop AP startup
        } else {
          passed := Some((msr, val));
        }
      } else if msr == MSR_EFER {
        vmcs := VmWrite(vmcs, GUEST_IA32_EFER, ScrubEfer(val));
      } else {
        return false, None;
      }
      SkipEmulatedInstruction();
      ok := true;
    }
  }
}
