/**
 * CPU identification, kernel/cpu.c: the processor signature decode of
 * CPUID leaf 01H (Intel SDM Vol. 2A, "CPUID", figure "Version Information
 * Returned by CPUID in EAX"), the vendor match against the identification
 * strings, the capability words read from the basic and extended leaves,
 * and the in-place trimming of the 48-byte brand string.
 *
 * The `cpuid` instruction is a parameter: a function from leaf and
 * sub-leaf to the four output registers.
 */
module Cpu {
  import opened Machine
  import Bitops
  import StringLib
  import opened CpuBrand

  // include/asm/processor.h
  const X86_VENDOR_INTEL := 0
  const X86_VENDOR_AMD := 2
  const X86_VENDOR_UNKNOWN := 0xff

  /** `x86_vendor_id` size. */
  const VENDOR_ID_BYTES := 16

  // Capability words, include/asm/cpufeature.h.
  const CPUID_1_EDX := 0
  const CPUID_8000_0001_EDX := 1
  const CPUID_1_ECX := 4
  const CPUID_8000_0001_ECX := 6
  const CPUID_7_0_EBX := 9
  const CPUID_D_1_EAX := 10
  const CPUID_F_0_EDX := 11
  const CPUID_F_1_EDX := 12
  const CPUID_8000_0008_EBX := 13
  const CPUID_6_EAX := 14
  const CPUID_8000_000A_EDX := 15
  const CPUID_7_ECX := 16
  const CPUID_8000_0007_EBX := 17
  /** `X86_FEATURE_CQM_LLC`: bit 1 of word CPUID_F_0_EDX. */
  const CQM_LLC_BIT := 1

  /** The registers one `cpuid` returns. */
  datatype Regs = Regs(eax: u32, ebx: u32, ecx: u32, edx: u32)

  /** The processor's answers: `cpuid_count(leaf, subleaf)`; plain `cpuid` uses sub-leaf 0. */
  type Cpuid = (nat, nat) -> Regs

  // ---------------------------------------------------------------------
  // Signature decode

  /** `x86_family(sig)` */
  function Family(sig: u32): nat
  {
    var x86 := (sig / 0x100) % 0x10;
    if x86 == 0xf then x86 + (sig / 0x10_0000) % 0x100 else x86
  }

  /** `x86_model(sig)` */
  function Model(sig: u32): nat
  {
    var model := (sig / 0x10) % 0x10;
    if Family(sig) >= 6 then model + 0x10 * ((sig / 0x1_0000) % 0x10) else model
  }

  /** `x86_stepping(sig)` */
  function Stepping(sig: u32): nat
  {
    sig % 0x10
  }

  /** The fields of the leaf 01H signature, low bit first. */
  datatype Signature = Signature(
    stepping: nat, model: nat, family: nat, procType: nat, extModel: nat, extFamily: nat, top: nat)

  predicate SignatureFits(x: Signature)
  {
    && x.stepping < 0x10 && x.model < 0x10 && x.family < 0x10 && x.procType < 0x10
    && x.extModel < 0x10 && x.extFamily < 0x100 && x.top < 0x10
  }

  /** Bits 0-3, 4-7, 8-11, 12-15, 16-19, 20-27 and 28-31. */
  function EncodeSignature(x: Signature): (r: u32)
    requires SignatureFits(x)
  {
    x.stepping + 0x10 * x.model + 0x100 * x.family + 0x1000 * x.procType
      + 0x1_0000 * x.extModel + 0x10_0000 * x.extFamily + 0x1000_0000 * x.top
  }

  /** Splits a value below 16^k * 16 at nibble k. */
  lemma NibbleAt(low: nat, n: nat, high: nat, p: nat)
    requires p > 0 && low < p && n < 0x10
    ensures ((low + p * n + 0x10 * p * high) / p) % 0x10 == n
    ensures (low + p * n + 0x10 * p * high) / (0x10 * p) == high
  {
    var v := low + p * n + 0x10 * p * high;
    assert v == p * (n + 0x10 * high) + low;
    DivModUnique(v, p, n + 0x10 * high, low);
    DivModUnique(n + 0x10 * high, 0x10, high, n);
    ModSplit(v, p, 0x10);
  }

  /**
   * Decoding a signature gives back its fields: the family is the base
   * family, plus the extended family when the base is 0xf; the model
   * gains the extended model as its high nibble from family 6 on.
   */
  lemma SignatureRoundTrip(x: Signature)
    requires SignatureFits(x)
    ensures Stepping(EncodeSignature(x)) == x.stepping
    ensures Family(EncodeSignature(x)) == if x.family == 0xf then 0xf + x.extFamily else x.family
    ensures Model(EncodeSignature(x)) ==
      x.model + (if Family(EncodeSignature(x)) >= 6 then 0x10 * x.extModel else 0)
  {
    var sig := EncodeSignature(x);
    ModelField(x);
    FamilyField(x);
    ExtModelField(x);
    ExtFamilyField(x);
    assert sig % 0x10 == x.stepping;
  }

  lemma ModelField(x: Signature)
    requires SignatureFits(x)
    ensures (EncodeSignature(x) as nat / 0x10) % 0x10 == x.model
  {
    var hi20 := x.extFamily + 0x100 * x.top;
    NibbleAt(x.stepping, x.model, x.family + 0x10 * x.procType + 0x100 * x.extModel + 0x1000 * hi20, 0x10);
  }

  lemma FamilyField(x: Signature)
    requires SignatureFits(x)
    ensures (EncodeSignature(x) as nat / 0x100) % 0x10 == x.family
  {
    var hi20 := x.extFamily + 0x100 * x.top;
    NibbleAt(x.stepping + 0x10 * x.model, x.family, x.procType + 0x10 * x.extModel + 0x100 * hi20, 0x100);
  }

  lemma ExtModelField(x: Signature)
    requires SignatureFits(x)
    ensures (EncodeSignature(x) as nat / 0x1_0000) % 0x10 == x.extModel
  {
    var hi20 := x.extFamily + 0x100 * x.top;
    NibbleAt(x.stepping + 0x10 * x.model + 0x100 * x.family + 0x1000 * x.procType, x.extModel, hi20, 0x1_0000);
  }

  lemma ExtFamilyField(x: Signature)
    requires SignatureFits(x)
    ensures (EncodeSignature(x) as nat / 0x10_0000) % 0x100 == x.extFamily
  {
    var sig := EncodeSignature(x);
    var hi20 := x.extFamily + 0x100 * x.top;
    var low20 := x.stepping + 0x10 * x.model + 0x100 * x.family + 0x1000 * x.procType + 0x1_0000 * x.extModel;
    assert sig == low20 + 0x10_0000 * hi20;
    DivModUnique(sig, 0x10_0000, hi20, low20);
    DivModUnique(hi20, 0x100, x.top, x.extFamily);
  }

  /** The model fits the 8-bit `x86_model`; the family reaches at most 0xf + 0xff. */
  lemma SignatureBounds(sig: u32)
    ensures Model(sig) < 0x100 && Stepping(sig) < 0x10 && Family(sig) <= 0xf + 0xff
  {
  }

  /** `int cpuid_level`: the 32-bit EAX of leaf 0 read as a signed integer. */
  function AsInt32(x: u32): (r: int)
    ensures -0x8000_0000 <= r < 0x8000_0000
    ensures r >= 0 <==> x < 0x8000_0000
  {
    if x < 0x8000_0000 then x else x - 0x1_0000_0000
  }

  // ---------------------------------------------------------------------
  // Vendor

  /** The 12 vendor bytes of leaf 0: EBX, EDX, ECX at offsets 0, 4, 8; the rest of the field is kept. */
  function VendorIdBytes(leaf0: Regs, vendorId: seq<u8>): (r: seq<u8>)
    requires |vendorId| == VENDOR_ID_BYTES
    ensures |r| == VENDOR_ID_BYTES
  {
    ToLittleEndian(leaf0.ebx, 4) + ToLittleEndian(leaf0.edx, 4) + ToLittleEndian(leaf0.ecx, 4)
      + vendorId[12..]
  }

  /** "GenuineIntel" */
  const GENUINE_INTEL: seq<u8> := [0x47, 0x65, 0x6e, 0x75, 0x69, 0x6e, 0x65, 0x49, 0x6e, 0x74, 0x65, 0x6c]
  /** "AuthenticAMD" */
  const AUTHENTIC_AMD: seq<u8> := [0x41, 0x75, 0x74, 0x68, 0x65, 0x6e, 0x74, 0x69, 0x63, 0x41, 0x4d, 0x44]

  /** `struct cpu_dev`: up to two identification strings and the vendor number. */
  datatype CpuDev = CpuDev(ident0: seq<u8>, ident1: Option<seq<u8>>, vendor: u8)

  /** `cpu_devs[]` */
  const CPU_DEVS: seq<CpuDev> := [
    CpuDev(GENUINE_INTEL, None, X86_VENDOR_INTEL as u8),
    CpuDev(AUTHENTIC_AMD, None, X86_VENDOR_AMD as u8)]

  /** `!strcmp(v, ident0) || (ident1 && !strcmp(v, ident1))` */
  predicate Matches(v: seq<u8>, dev: CpuDev)
  {
    CStr(v) == dev.ident0 || (dev.ident1.Some? && CStr(v) == dev.ident1.value)
  }

  /** The vendor of the first entry from i on that matches, or unknown. */
  function VendorFrom(v: seq<u8>, i: nat): u8
    requires i <= |CPU_DEVS|
    decreases |CPU_DEVS| - i
  {
    if i == |CPU_DEVS| then X86_VENDOR_UNKNOWN as u8
    else if Matches(v, CPU_DEVS[i]) then CPU_DEVS[i].vendor
    else VendorFrom(v, i + 1)
  }

  /** Intel for "GenuineIntel", AMD for "AuthenticAMD", unknown (0xff) for anything else. */
  lemma VendorCases(v: seq<u8>)
    ensures VendorFrom(v, 0) == X86_VENDOR_INTEL <==> CStr(v) == GENUINE_INTEL
    ensures VendorFrom(v, 0) == X86_VENDOR_AMD <==> CStr(v) == AUTHENTIC_AMD
    ensures VendorFrom(v, 0) == X86_VENDOR_UNKNOWN <==> CStr(v) != GENUINE_INTEL && CStr(v) != AUTHENTIC_AMD
  {
    assert GENUINE_INTEL[0] != AUTHENTIC_AMD[0];
  }

  /**
   * An Intel processor's leaf 0 (EBX "Genu", EDX "ineI", ECX "ntel") in a
   * zeroed field is identified as Intel.
   */
  lemma IntelLeaf0(eax: u32)
    ensures var v := VendorIdBytes(Regs(eax, 0x756e6547, 0x6c65746e, 0x49656e69), seq(VENDOR_ID_BYTES, _ => 0));
      VendorFrom(v, 0) == X86_VENDOR_INTEL
  {
    var leaf0 := Regs(eax, 0x756e6547, 0x6c65746e, 0x49656e69);
    var v := VendorIdBytes(leaf0, seq(VENDOR_ID_BYTES, _ => 0));
    FourBytes(0x756e6547, 0x47, 0x65, 0x6e, 0x75);
    FourBytes(0x49656e69, 0x69, 0x6e, 0x65, 0x49);
    FourBytes(0x6c65746e, 0x6e, 0x74, 0x65, 0x6c);
    VendorIdPrefix(leaf0, seq(VENDOR_ID_BYTES, _ => 0));
    assert [0x47, 0x65, 0x6e, 0x75] + [0x69, 0x6e, 0x65, 0x49] + [0x6e, 0x74, 0x65, 0x6c] == GENUINE_INTEL;
    IntelVendor(v);
  }

  lemma VendorIdPrefix(leaf0: Regs, vendorId: seq<u8>)
    requires |vendorId| == VENDOR_ID_BYTES
    ensures var v := VendorIdBytes(leaf0, vendorId);
      && v[..12] == ToLittleEndian(leaf0.ebx, 4) + ToLittleEndian(leaf0.edx, 4) + ToLittleEndian(leaf0.ecx, 4)
      && v[12] == vendorId[12]
  {
  }


  /** "GenuineIntel" followed by a NUL is Intel. */
  lemma IntelVendor(v: seq<u8>)
    requires |v| > 12 && v[..12] == GENUINE_INTEL && v[12] == 0
    ensures VendorFrom(v, 0) == X86_VENDOR_INTEL
  {
    assert v == GENUINE_INTEL + v[12..];
    CStrOf(GENUINE_INTEL, v[12..]);
    VendorCases(v);
  }

  /** The little-endian bytes of a 32-bit register. */
  lemma FourBytes(v: nat, b0: u8, b1: u8, b2: u8, b3: u8)
    requires v == b0 as nat + 0x100 * b1 as nat + 0x1_0000 * b2 as nat + 0x100_0000 * b3 as nat
    ensures ToLittleEndian(v, 4) == [b0, b1, b2, b3]
  {
    var v1 := b1 as nat + 0x100 * b2 as nat + 0x1_0000 * b3 as nat;
    DivModUnique(v, 0x100, v1, b0 as nat);
    var v2 := b2 as nat + 0x100 * b3 as nat;
    DivModUnique(v1, 0x100, v2, b1 as nat);
    DivModUnique(v2, 0x100, b3 as nat, b2 as nat);
    assert ToLittleEndian(b3 as nat, 1) == [b3];
    assert ToLittleEndian(v2, 2) == [b2, b3];
    assert ToLittleEndian(v1, 3) == [b1, b2, b3];
  }


  // ---------------------------------------------------------------------
  // Capability words

  datatype Reg = EAX | EBX | ECX | EDX

  function Pick(r: Regs, g: Reg): u32
  {
    match g
    case EAX => r.eax
    case EBX => r.ebx
    case ECX => r.ecx
    case EDX => r.edx
  }

  /** Where a capability word comes from: leaf, sub-leaf and register. */
  datatype Source = Source(leaf: nat, subleaf: nat, reg: Reg)

  function WordSource(k: nat): Option<Source>
  {
    if k == CPUID_1_ECX then Some(Source(1, 0, ECX))
    else if k == CPUID_1_EDX then Some(Source(1, 0, EDX))
    else if k == CPUID_6_EAX then Some(Source(6, 0, EAX))
    else if k == CPUID_7_0_EBX then Some(Source(7, 0, EBX))
    else if k == CPUID_7_ECX then Some(Source(7, 0, ECX))
    else if k == CPUID_D_1_EAX then Some(Source(0xd, 1, EAX))
    else if k == CPUID_F_0_EDX then Some(Source(0xf, 0, EDX))
    else if k == CPUID_F_1_EDX then Some(Source(0xf, 1, EDX))
    else if k == CPUID_8000_0001_ECX then Some(Source(0x8000_0001, 0, ECX))
    else if k == CPUID_8000_0001_EDX then Some(Source(0x8000_0001, 0, EDX))
    else if k == CPUID_8000_0007_EBX then Some(Source(0x8000_0007, 0, EBX))
    else if k == CPUID_8000_0008_EBX then Some(Source(0x8000_0008, 0, EBX))
    else if k == CPUID_8000_000A_EDX then Some(Source(0x8000_000a, 0, EDX))
    else None
  }

  /** `(eax & 0xffff0000) == 0x80000000`: the upper half names the extended range. */
  predicate ExtendedRange(ext: u32)
  {
    ext / 0x1_0000 == 0x8000
  }

  /**
   * Whether `get_cpu_cap` reads a leaf: a basic leaf needs cpuid_level to
   * reach it; leaf 0x80000001 also needs the extended range check, the
   * later extended leaves only the level.
   */
  predicate Reached(level: int, ext: u32, leaf: nat)
  {
    if leaf < 0x8000_0000 then level >= leaf
    else if leaf == 0x8000_0001 then ExtendedRange(ext) && ext >= leaf
    else ext >= leaf
  }

  /** `cpu_has(c, X86_FEATURE_CQM_LLC)` after word CPUID_F_0_EDX was stored. */
  predicate CqmLlc(cpuid: Cpuid)
  {
    Bitops.Bit(cpuid(0xf, 0).edx, CQM_LLC_BIT)
  }

  /** The capability words after the basic leaves of `get_cpu_cap`. */
  function BasicCaps(cpuid: Cpuid, level: int, caps: map<nat, u32>): map<nat, u32>
  {
    var c1 := if level >= 1 then caps[CPUID_1_ECX := cpuid(1, 0).ecx][CPUID_1_EDX := cpuid(1, 0).edx] else caps;
    var c6 := if level >= 6 then c1[CPUID_6_EAX := cpuid(6, 0).eax] else c1;
    var c7 := if level >= 7 then c6[CPUID_7_0_EBX := cpuid(7, 0).ebx][CPUID_7_ECX := cpuid(7, 0).ecx] else c6;
    var cd := if level >= 0xd then c7[CPUID_D_1_EAX := cpuid(0xd, 1).eax] else c7;
    if level >= 0xf then
      var f0 := cd[CPUID_F_0_EDX := cpuid(0xf, 0).edx];
      if CqmLlc(cpuid) then f0[CPUID_F_1_EDX := cpuid(0xf, 1).edx] else f0
    else cd
  }

  /** The capability words after the extended leaves, with ext the EAX of leaf 0x80000000. */
  function ExtendedCaps(cpuid: Cpuid, ext: u32, caps: map<nat, u32>): map<nat, u32>
  {
    var c1 := if ExtendedRange(ext) && ext >= 0x8000_0001 then
        caps[CPUID_8000_0001_ECX := cpuid(0x8000_0001, 0).ecx][CPUID_8000_0001_EDX := cpuid(0x8000_0001, 0).edx]
      else caps;
    var c7 := if ext >= 0x8000_0007 then c1[CPUID_8000_0007_EBX := cpuid(0x8000_0007, 0).ebx] else c1;
    var c8 := if ext >= 0x8000_0008 then c7[CPUID_8000_0008_EBX := cpuid(0x8000_0008, 0).ebx] else c7;
    if ext >= 0x8000_000a then c8[CPUID_8000_000A_EDX := cpuid(0x8000_000a, 0).edx] else c8
  }

  function CapsAfter(cpuid: Cpuid, level: int, caps: map<nat, u32>): map<nat, u32>
  {
    ExtendedCaps(cpuid, cpuid(0x8000_0000, 0).eax, BasicCaps(cpuid, level, caps))
  }

  /** The basic half of CapsWords. */
  lemma BasicCapsWords(cpuid: Cpuid, level: int, caps: map<nat, u32>, k: nat)
    ensures var c := BasicCaps(cpuid, level, caps);
      var src := WordSource(k);
      var written := src.Some? && Reached(level, 0, src.value.leaf) && (k == CPUID_F_1_EDX ==> CqmLlc(cpuid));
      && (written ==> k in c && c[k] == Pick(cpuid(src.value.leaf, src.value.subleaf), src.value.reg))
      && (!written ==> (k in c <==> k in caps) && (k in caps ==> c[k] == caps[k]))
  {
  }

  /** The extended half of CapsWords. */
  lemma ExtendedCapsWords(cpuid: Cpuid, ext: u32, caps: map<nat, u32>, k: nat)
    ensures var c := ExtendedCaps(cpuid, ext, caps);
      var src := WordSource(k);
      var written := src.Some? && Reached(0, ext, src.value.leaf);
      && (written ==> k in c && c[k] == Pick(cpuid(src.value.leaf, src.value.subleaf), src.value.reg))
      && (!written ==> (k in c <==> k in caps) && (k in caps ==> c[k] == caps[k]))
  {
  }

  /**
   * `get_cpu_cap` stores capability word k exactly when its leaf is
   * reached (word CPUID_F_1_EDX also needs the CQM_LLC feature), and then
   * with the register of that leaf; every other word is left as it was.
   */
  lemma CapsWords(cpuid: Cpuid, level: int, caps: map<nat, u32>, k: nat)
    ensures var c := CapsAfter(cpuid, level, caps);
      var ext := cpuid(0x8000_0000, 0).eax;
      var src := WordSource(k);
      var written := src.Some? && Reached(level, ext, src.value.leaf) && (k == CPUID_F_1_EDX ==> CqmLlc(cpuid));
      && (written ==> k in c && c[k] == Pick(cpuid(src.value.leaf, src.value.subleaf), src.value.reg))
      && (!written ==> (k in c <==> k in caps) && (k in caps ==> c[k] == caps[k]))
  {
    var ext := cpuid(0x8000_0000, 0).eax;
    BasicCapsWords(cpuid, level, caps, k);
    ExtendedCapsWords(cpuid, ext, BasicCaps(cpuid, level, caps), k);
  }

  // ---------------------------------------------------------------------
  // Brand string

  /** The brand string as the three extended leaves return it: EAX, EBX, ECX, EDX of each. */
  function BrandBytes(cpuid: Cpuid): (r: seq<u8>)
    ensures |r| == BRAND_BYTES
  {
    LeafBytes(cpuid(0x8000_0002, 0)) + LeafBytes(cpuid(0x8000_0003, 0)) + LeafBytes(cpuid(0x8000_0004, 0))
  }

  function LeafBytes(r: Regs): (b: seq<u8>)
    ensures |b| == 16
  {
    ToLittleEndian(r.eax, 4) + ToLittleEndian(r.ebx, 4) + ToLittleEndian(r.ecx, 4) + ToLittleEndian(r.edx, 4)
  }

  /** The three `cpuid` calls of `get_model_name` that store the brand over the first 48 bytes. */
  method StoreBrand(id: array<u8>, brand: seq<u8>)
    requires |brand| == BRAND_BYTES && id.Length == MODEL_ID_BYTES
    modifies id
    ensures id[..] == StringLib.Overwrite(old(id[..]), 0, brand)
  {
    for k := 0 to BRAND_BYTES
      invariant forall j :: 0 <= j < k ==> id[j] == brand[j]
      invariant forall j :: k <= j < MODEL_ID_BYTES ==> id[j] == old(id[j])
    {
      id[k] := brand[k];
    }
    StringLib.OverwriteIntro(id[..], old(id[..]), 0, brand);
  }

  // ---------------------------------------------------------------------
  // struct cpuinfo_x86

  /** The fields of `struct cpuinfo_x86` that the detection code fills. */
  class CpuInfo {
    var x86: u8
    var x86Vendor: u8
    var x86Model: u8
    var x86Mask: u8
    var extendedCpuidLevel: u32
    var cpuidLevel: int
    /** The capability words `get_cpu_cap` has stored, by index. */
    var capability: map<nat, u32>
    var vendorId: seq<u8>
    const modelId: array<u8>

    ghost predicate Valid()
      reads this
    {
      |vendorId| == VENDOR_ID_BYTES && modelId.Length == MODEL_ID_BYTES
    }

    /** The per-CPU variable starts zeroed. */
    constructor ()
      ensures Valid() && fresh(modelId)
      ensures x86 == 0 && x86Vendor == 0 && x86Model == 0 && x86Mask == 0
      ensures extendedCpuidLevel == 0 && cpuidLevel == 0 && capability == map[]
      ensures vendorId == seq(VENDOR_ID_BYTES, _ => 0)
      ensures forall k :: 0 <= k < MODEL_ID_BYTES ==> modelId[k] == 0
    {
      x86, x86Vendor, x86Model, x86Mask := 0, 0, 0, 0;
      extendedCpuidLevel, cpuidLevel, capability := 0, 0, map[];
      vendorId := seq(VENDOR_ID_BYTES, _ => 0);
      modelId := new u8[MODEL_ID_BYTES](_ => 0);
    }

    /**
     * `cpu_detect`: leaf 0 gives the maximum level and the vendor string;
     * the family defaults to 4, and from level 1 on family, model and
     * stepping come from the signature (the family truncated to the
     * 8-bit field).
     */
    method CpuDetect(cpuid: Cpuid)
      requires Valid()
      modifies this
      ensures Valid()
      ensures cpuidLevel == AsInt32(cpuid(0, 0).eax)
      ensures vendorId == VendorIdBytes(cpuid(0, 0), old(vendorId))
      ensures var sig := cpuid(1, 0).eax;
        && x86 == (if cpuidLevel >= 1 then Family(sig) % 0x100 else 4)
        && x86Model == (if cpuidLevel >= 1 then Model(sig) else old(x86Model))
        && x86Mask == (if cpuidLevel >= 1 then Stepping(sig) else old(x86Mask))
      ensures x86Vendor == old(x86Vendor) && capability == old(capability)
      ensures extendedCpuidLevel == old(extendedCpuidLevel)
    {
      var leaf0 := cpuid(0, 0);
      cpuidLevel := AsInt32(leaf0.eax);
      vendorId := VendorIdBytes(leaf0, vendorId);
      x86 := 4;
      if cpuidLevel >= 1 {
        var tfms := cpuid(1, 0).eax;
        SignatureBounds(tfms);
        x86 := Family(tfms) % 0x100;
        x86Model := Model(tfms);
        x86Mask := Stepping(tfms);
      }
    }

    /** `get_cpu_vendor`: the vendor of the first `cpu_devs` entry that matches, else unknown. */
    method GetCpuVendor()
      requires Valid()
      modifies this
      ensures Valid()
      ensures x86Vendor == VendorFrom(vendorId, 0)
      ensures x86 == old(x86) && x86Model == old(x86Model) && x86Mask == old(x86Mask)
      ensures cpuidLevel == old(cpuidLevel) && vendorId == old(vendorId) && capability == old(capability)
      ensures extendedCpuidLevel == old(extendedCpuidLevel)
    {
      var i := 0;
      while i < |CPU_DEVS|
        invariant i <= |CPU_DEVS| && VendorFrom(vendorId, i) == VendorFrom(vendorId, 0)
      {
        var dev := CPU_DEVS[i];
        if CStr(vendorId) == dev.ident0 || (dev.ident1.Some? && CStr(vendorId) == dev.ident1.value) {
          x86Vendor := dev.vendor;
          return;
        }
        i := i + 1;
      }
      x86Vendor := X86_VENDOR_UNKNOWN as u8;
    }

    /** `get_cpu_cap` */
    method GetCpuCap(cpuid: Cpuid)
      requires Valid()
      modifies this
      ensures Valid()
      ensures capability == CapsAfter(cpuid, cpuidLevel, old(capability))
      ensures extendedCpuidLevel == cpuid(0x8000_0000, 0).eax
      ensures x86 == old(x86) && x86Vendor == old(x86Vendor) && x86Model == old(x86Model) && x86Mask == old(x86Mask)
      ensures cpuidLevel == old(cpuidLevel) && vendorId == old(vendorId)
    {
      capability := BasicCaps(cpuid, cpuidLevel, capability);
      var eax := cpuid(0x8000_0000, 0).eax;
      extendedCpuidLevel := eax;
      capability := ExtendedCaps(cpuid, eax, capability);
    }

    /**
     * `get_model_name`: below extended level 0x80000004 nothing happens;
     * otherwise the 48 brand bytes and a NUL go into `x86_model_id` and
     * the string is trimmed in place.
     */
    method GetModelName(cpuid: Cpuid)
      requires Valid()
      modifies modelId
      ensures extendedCpuidLevel < 0x8000_0004 ==> modelId[..] == old(modelId[..])
      ensures extendedCpuidLevel >= 0x8000_0004 ==>
        modelId[..] == Trimmed(StringLib.Overwrite(old(modelId[..]), 0, BrandBytes(cpuid))[BRAND_BYTES := 0])
    {
      if extendedCpuidLevel < 0x8000_0004 {
        return;
      }
      StoreBrand(modelId, BrandBytes(cpuid));
      modelId[BRAND_BYTES] := 0;
      TrimModelName(modelId);
    }

    /** `cpu_init`: detection, vendor, capabilities and brand string, in that order. */
    method CpuInit(cpuid: Cpuid)
      requires Valid()
      modifies this, modelId
      ensures Valid()
      ensures cpuidLevel == AsInt32(cpuid(0, 0).eax)
      ensures vendorId == VendorIdBytes(cpuid(0, 0), old(vendorId))
      ensures x86Vendor == VendorFrom(vendorId, 0)
      ensures var sig := cpuid(1, 0).eax;
        && x86 == (if cpuidLevel >= 1 then Family(sig) % 0x100 else 4)
        && x86Model == (if cpuidLevel >= 1 then Model(sig) else old(x86Model))
        && x86Mask == (if cpuidLevel >= 1 then Stepping(sig) else old(x86Mask))
      ensures capability == CapsAfter(cpuid, cpuidLevel, old(capability))
      ensures extendedCpuidLevel == cpuid(0x8000_0000, 0).eax
      ensures extendedCpuidLevel < 0x8000_0004 ==> modelId[..] == old(modelId[..])
      ensures extendedCpuidLevel >= 0x8000_0004 ==>
        modelId[..] == Trimmed(StringLib.Overwrite(old(modelId[..]), 0, BrandBytes(cpuid))[BRAND_BYTES := 0])
    {
      CpuDetect(cpuid);
      GetCpuVendor();
      GetCpuCap(cpuid);
      GetModelName(cpuid);
    }
  }
}
