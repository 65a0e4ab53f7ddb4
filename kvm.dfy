/**
 * The architecture-independent part of the VMM (`vmm/kvm.c`): the CPUID
 * values the guest sees, the extended page tables that map the guest's
 * firmware and kernel, the start-up of `kvm_init` that fills in and checks
 * the guest_params header, and the real-mode entry point of `run_vcpu`.
 *
 * The hardware's own CPUID answer is a function parameter; `native_cpuid`
 * is not modelled.
 */
module Kvm {
  import opened Machine
  import opened KvmHost
  import opened Vmx
  import opened E820Map
  import opened Setup
  import E820
  import StringLib

  // ---------------------------------------------------------------------
  // CPUID

  /**
   * Feature numbers of asm/cpufeatures.h, word * 32 + bit; that header is
   * not part of this model, and the values are those of CPUID.01H:ECX
   * (Intel SDM Vol. 2, Table 3-10: VMX is bit 5, x2APIC bit 21, and bit 31
   * is the hypervisor-present bit).
   */
  const X86_FEATURE_VMX: int := 4 * 32 + 5
  const X86_FEATURE_X2APIC: int := 4 * 32 + 21
  const X86_FEATURE_HYPERVISOR: int := 4 * 32 + 31

  /** `bit(bitno)`: `1U << (bitno & 31)`; `& 31` on a two's-complement int is the non-negative remainder. */
  function Bit(bitno: int): bv32
  {
    Shl1(bitno % 32)
  }

  /** `1U << k`. */
  function Shl1(k: nat): bv32
    requires k < 32
  {
    1 << k
  }

  /** bit() forgets the word number: only the bit number modulo 32 matters, negative numbers included. */
  lemma BitModulo(bitno: int)
    ensures Bit(bitno + 32) == Bit(bitno)
    ensures Bit(bitno) == Bit(bitno % 32)
  {
    assert (bitno + 32) % 32 == bitno % 32;
    assert (bitno % 32) % 32 == bitno % 32;
  }

  /** The three features land on ECX bits 5, 21 and 31. */
  lemma FeatureBits()
    ensures Bit(X86_FEATURE_VMX) == 0x20 && Bit(X86_FEATURE_X2APIC) == 0x20_0000
    ensures Bit(X86_FEATURE_HYPERVISOR) == 0x8000_0000
  {
  }

  /** The four 32-bit outputs of CPUID. */
  datatype CpuidRegs = CpuidRegs(eax: bv32, ebx: bv32, ecx: bv32, edx: bv32)

  const CPUID_ZERO: CpuidRegs := CpuidRegs(0, 0, 0, 0)

  /** The feature bits leaf 1 rewrites in ECX. */
  const LEAF1_REWRITTEN: bv32 := Bit(X86_FEATURE_VMX) | Bit(X86_FEATURE_X2APIC) | Bit(X86_FEATURE_HYPERVISOR)

  /** "KVMKVMKVM": the signature of leaf 0x40000000, four bytes per register, little-endian. */
  const KVM_SIGNATURE: CpuidRegs := CpuidRegs(0x4000_0001, 0x4b4d_564b, 0x564b_4d56, 0x4d)

  /** The switch of `kvm_emulate_cpuid`: what the guest sees for a leaf, given what the processor answered. */
  function CpuidRewrite(leaf: bv32, native: CpuidRegs): (r: CpuidRegs)
  {
    if leaf == 1 then
      native.(ecx := ((native.ecx & !Bit(X86_FEATURE_VMX)) | Bit(X86_FEATURE_X2APIC)) | Bit(X86_FEATURE_HYPERVISOR))
    else if leaf == 4 then CPUID_ZERO
    else if leaf == 0x4000_0000 then KVM_SIGNATURE
    else if leaf == 0x4000_0001 then CPUID_ZERO
    else native
  }

  /** Leaf 1 hides VMX and shows x2APIC and the hypervisor bit; EAX, EBX and EDX are the processor's. */
  lemma CpuidLeaf1(native: CpuidRegs)
    ensures CpuidRewrite(1, native).ecx & Bit(X86_FEATURE_VMX) == 0
    ensures CpuidRewrite(1, native).ecx & Bit(X86_FEATURE_X2APIC) != 0
    ensures CpuidRewrite(1, native).ecx & Bit(X86_FEATURE_HYPERVISOR) != 0
    ensures CpuidRewrite(1, native).(ecx := native.ecx) == native
  {
    FeatureBits();
    Leaf1Bits(native.ecx);
  }

  /** The ECX rewrite of leaf 1 on the literal masks. */
  lemma Leaf1Bits(ecx: bv32)
    ensures ((ecx & !0x20) | 0x20_0000 | 0x8000_0000) & 0x20 == 0
    ensures ((ecx & !0x20) | 0x20_0000 | 0x8000_0000) & 0x20_0000 != 0
    ensures ((ecx & !0x20) | 0x20_0000 | 0x8000_0000) & 0x8000_0000 != 0
  {
  }

  /** Leaf 1 keeps every ECX bit other than the three it rewrites. */
  lemma CpuidLeaf1Others(native: CpuidRegs)
    ensures CpuidRewrite(1, native).ecx & !LEAF1_REWRITTEN == native.ecx & !LEAF1_REWRITTEN
  {
    FeatureBits();
  }

  /** Leaves 4 and 0x40000001 are answered with zeros. */
  lemma CpuidHiddenLeaves(leaf: bv32, native: CpuidRegs)
    requires leaf == 4 || leaf == 0x4000_0001
    ensures CpuidRewrite(leaf, native) == CPUID_ZERO
  {
  }

  /** Any other leaf passes through unchanged. */
  lemma CpuidNativeLeaves(leaf: bv32, native: CpuidRegs)
    requires leaf != 1 && leaf != 4 && leaf != 0x4000_0000 && leaf != 0x4000_0001
    ensures CpuidRewrite(leaf, native) == native
  {
  }

  /** The little-endian bytes of a register. */
  function RegisterBytes(x: bv32): (r: seq<u8>)
    ensures |r| == 4
  {
    ToLittleEndian(x as nat, 4)
  }

  /** The four bytes of a 32-bit value, low byte first. */
  lemma FourBytes(v: nat)
    ensures ToLittleEndian(v, 4) == [v % 256, v / 0x100 % 256, v / 0x1_0000 % 256, v / 0x100_0000 % 256]
  {
    assert ToLittleEndian(v, 4) == [v % 256] + ToLittleEndian(v / 256, 3);
    assert ToLittleEndian(v / 256, 3) == [v / 256 % 256] + ToLittleEndian(v / 256 / 256, 2);
    assert ToLittleEndian(v / 256 / 256, 2) == [v / 256 / 256 % 256] + ToLittleEndian(v / 256 / 256 / 256, 1);
    assert v / 256 / 256 == v / 0x1_0000 && v / 256 / 256 / 256 == v / 0x100_0000;
  }

  /** Bytes read as characters. */
  function Chars(bytes: seq<u8>): (s: string)
    ensures |s| == |bytes|
  {
    seq(|bytes|, i requires 0 <= i < |bytes| => bytes[i] as char)
  }

  /** The twelve signature bytes of EBX, ECX and EDX. */
  lemma SignatureBytes()
    ensures RegisterBytes(KVM_SIGNATURE.ebx) + RegisterBytes(KVM_SIGNATURE.ecx) + RegisterBytes(KVM_SIGNATURE.edx)
         == [0x4b, 0x56, 0x4d, 0x4b, 0x56, 0x4d, 0x4b, 0x56, 0x4d, 0, 0, 0]
  {
    assert RegisterBytes(KVM_SIGNATURE.ebx) == [0x4b, 0x56, 0x4d, 0x4b] by { FourBytes(0x4b4d_564b); }
    assert RegisterBytes(KVM_SIGNATURE.ecx) == [0x56, 0x4d, 0x4b, 0x56] by { FourBytes(0x564b_4d56); }
    assert RegisterBytes(KVM_SIGNATURE.edx) == [0x4d, 0, 0, 0] by { FourBytes(0x4d); }
  }

  /**
   * Leaf 0x40000000 reports 0x40000001 as the highest hypervisor leaf, and
   * EBX, ECX, EDX spell "KVMKVMKVM" followed by NULs, as Linux expects of KVM.
   */
  lemma CpuidSignature(native: CpuidRegs)
    ensures CpuidRewrite(0x4000_0000, native).eax == 0x4000_0001
    ensures Chars(RegisterBytes(CpuidRewrite(0x4000_0000, native).ebx) + RegisterBytes(CpuidRewrite(0x4000_0000, native).ecx)
                  + RegisterBytes(CpuidRewrite(0x4000_0000, native).edx)) == "KVMKVMKVM\0\0\0"
  {
    SignatureBytes();
  }

  /** `(uint32_t)` of a register value. */
  function Truncate32(x: bv64): bv32
  {
    (x & 0xffff_ffff) as bv32
  }

  /** A 32-bit value stored into a 64-bit register, zero-extended. */
  function Extend32(x: bv32): bv64
  {
    x as bv64
  }

  /** A zero-extended value reads back unchanged as a `uint32_t`. */
  lemma Truncate32Extend(x: bv32)
    ensures Truncate32(Extend32(x)) == x
    ensures Extend32(x) >> 32 == 0
  {
  }

  /** The CPUID answer for the leaf in EAX and the subleaf in ECX of the guest's registers. */
  function CpuidAnswer(g: Guest, native: (bv32, bv32) -> CpuidRegs): CpuidRegs
    requires GuestValid(g)
  {
    CpuidRewrite(Truncate32(g.regs[VCPU_REGS_RAX]), native(Truncate32(g.regs[VCPU_REGS_RAX]), Truncate32(g.regs[VCPU_REGS_RCX])))
  }

  /** `kvm_emulate_cpuid` on the guest state: the answer in RAX, RBX, RCX, RDX, then the instruction skipped. */
  function Cpuid(g: Guest, native: (bv32, bv32) -> CpuidRegs): (r: Guest)
    requires GuestValid(g)
  {
    var a := CpuidAnswer(g, native);
    var regs := g.regs[VCPU_REGS_RAX := Extend32(a.eax)][VCPU_REGS_RBX := Extend32(a.ebx)]
                      [VCPU_REGS_RCX := Extend32(a.ecx)][VCPU_REGS_RDX := Extend32(a.edx)];
    SkipStep(Guest(regs, g.vmcs))
  }

  /**
   * After CPUID the guest reads the rewritten answer for its leaf in the low
   * halves of RAX, RBX, RCX, RDX, with the high halves clear; no other
   * register changes, and the instruction is skipped.
   */
  lemma CpuidResult(g: Guest, native: (bv32, bv32) -> CpuidRegs)
    requires GuestValid(g)
    ensures GuestValid(Cpuid(g, native))
    ensures Truncate32(Cpuid(g, native).regs[VCPU_REGS_RAX]) == CpuidAnswer(g, native).eax
    ensures Truncate32(Cpuid(g, native).regs[VCPU_REGS_RBX]) == CpuidAnswer(g, native).ebx
    ensures Truncate32(Cpuid(g, native).regs[VCPU_REGS_RCX]) == CpuidAnswer(g, native).ecx
    ensures Truncate32(Cpuid(g, native).regs[VCPU_REGS_RDX]) == CpuidAnswer(g, native).edx
    ensures forall r :: VCPU_REGS_RBX < r < NR_VCPU_REGS ==> Cpuid(g, native).regs[r] == g.regs[r]
    ensures Cpuid(g, native).vmcs == SkipInstruction(g.vmcs)
  {
    var a := CpuidAnswer(g, native);
    Truncate32Extend(a.eax);
    Truncate32Extend(a.ebx);
    Truncate32Extend(a.ecx);
    Truncate32Extend(a.edx);
  }

  /** `kvm_emulate_cpuid` on a VMX virtual CPU. */
  method EmulateCpuid(cv: VcpuVmx, native: (bv32, bv32) -> CpuidRegs)
    requires cv.Valid()
    modifies cv, cv.vcpu.regs
    ensures cv.Valid() && cv.State() == Cpuid(old(cv.State()), native)
  {
    var eax := Truncate32(cv.vcpu.RegisterRead(VCPU_REGS_RAX));
    var leaf := eax;
    var ecx := Truncate32(cv.vcpu.RegisterRead(VCPU_REGS_RCX));
    var answer := native(eax, ecx);
    answer := CpuidRewrite(leaf, answer);
    cv.vcpu.RegisterWrite(VCPU_REGS_RAX, Extend32(answer.eax));
    cv.vcpu.RegisterWrite(VCPU_REGS_RBX, Extend32(answer.ebx));
    cv.vcpu.RegisterWrite(VCPU_REGS_RCX, Extend32(answer.ecx));
    cv.vcpu.RegisterWrite(VCPU_REGS_RDX, Extend32(answer.edx));
    cv.SkipEmulatedInstruction();
  }

  // ---------------------------------------------------------------------
  // The extended page tables of construct_tdp

  const EPTE_READ: bv64 := 1 << 0
  const EPTE_WRITE: bv64 := 1 << 1
  const EPTE_EXECUTE: bv64 := 1 << 2
  const EPTE_PSE: bv64 := 1 << 7
  const RWX: bv64 := EPTE_READ | EPTE_WRITE | EPTE_EXECUTE

  const SZ_2M: nat := 0x20_0000
  const EPT_ENTRIES: nat := 512

  /** An entry pointing to the next table: `__pa(table) | rwx`. */
  function TableEntry(pa: bv64): bv64 { pa | RWX }

  /** A 2 MiB page entry: `base | rwx | EPTE_PSE`. */
  function LeafEntry(base: bv64): bv64 { base | RWX | EPTE_PSE }

  /** A table address: `__aligned(PAGE_SIZE)`. */
  predicate PageAligned(pa: bv64) { pa & 0xfff == 0 }

  /** A 2 MiB page address, as `ALIGN(..., SZ_2M)` gives. */
  predicate LargeAligned(pa: bv64) { pa & 0x1f_ffff == 0 }

  /** The offset of an address inside its 2 MiB page: `pg_offset(paddr, SZ_2M)`. */
  function LargeOffset(a: bv64): bv64 { a & 0x1f_ffff }

  /** A table entry grants read, write and execute, is not a large page, and leads to the table. */
  lemma TableEntryBits(pa: bv64)
    requires PageAligned(pa)
    ensures Readable(TableEntry(pa)) && !LargePage(TableEntry(pa))
    ensures TableEntry(pa) & RWX == RWX
    ensures NextTable(TableEntry(pa)) == pa
  {
  }

  /** A 2 MiB leaf grants read, write and execute and is a large page. */
  lemma LeafEntryBits(base: bv64)
    ensures Readable(LeafEntry(base)) && LargePage(LeafEntry(base))
    ensures LeafEntry(base) & RWX == RWX
  {
  }

  /** A 2 MiB leaf at level 2 translates gpa to the same offset inside its page. */
  lemma LeafAddress(base: bv64, gpa: bv64)
    requires LargeAligned(base)
    ensures LargePageAddress(LeafEntry(base), gpa, 2) == base | LargeOffset(gpa)
  {
    LeafFrame(base);
    LeafOffset(base, gpa);
  }

  lemma LeafFrame(base: bv64)
    requires LargeAligned(base)
    ensures LeafEntry(base) & Mask(2) == base
  {
  }

  lemma LeafOffset(base: bv64, gpa: bv64)
    ensures gpa & !Mask(2) == LargeOffset(gpa)
  {
  }

  /** Below 1 GiB the PML4 and PDPT indices are 0 and the PD index is the 2 MiB frame number. */
  lemma LowIndices(gpa: bv64)
    requires gpa >> 30 == 0
    ensures (gpa >> Shift(0)) & 0x1ff == 0 && (gpa >> Shift(1)) & 0x1ff == 0
    ensures (gpa >> Shift(2)) & 0x1ff == gpa >> 21
  {
  }

  /** The first two levels of the walk below 1 GiB, through PML4[0] and PDPT[0]. */
  lemma LowWalkPrefix(mem: PhysWords, pml4Pa: bv64, pdptPa: bv64, pdPa: bv64, gpa: bv64)
    requires PageAligned(pdptPa) && PageAligned(pdPa)
    requires mem(pml4Pa) == TableEntry(pdptPa) && mem(pdptPa) == TableEntry(pdPa)
    requires gpa >> 30 == 0
    ensures EptWalk(mem, pml4Pa, gpa, 0, 0) == EptWalk(mem, pdPa, gpa, 2, TableEntry(pdPa))
  {
    LowIndices(gpa);
    assert EptEntry(mem, pml4Pa, gpa, 0) == TableEntry(pdptPa);
    assert EptEntry(mem, pdptPa, gpa, 1) == TableEntry(pdPa);
    TableEntryBits(pdptPa);
    TableEntryBits(pdPa);
    EptWalkNext(mem, pml4Pa, gpa, 0, 0);
    EptWalkNext(mem, pdptPa, gpa, 1, TableEntry(pdptPa));
  }

  /** A walk below 1 GiB that reaches a 2 MiB leaf in the PD ends at that page, same offset. */
  lemma LowWalk(mem: PhysWords, pml4Pa: bv64, pdptPa: bv64, pdPa: bv64, base: bv64, gpa: bv64)
    requires PageAligned(pdptPa) && PageAligned(pdPa) && LargeAligned(base)
    requires mem(pml4Pa) == TableEntry(pdptPa) && mem(pdptPa) == TableEntry(pdPa)
    requires gpa >> 30 == 0 && mem(pdPa + (gpa >> 21) * 8) == LeafEntry(base)
    ensures EptWalk(mem, pml4Pa, gpa, 0, 0) == Some(base | LargeOffset(gpa))
  {
    LowWalkPrefix(mem, pml4Pa, pdptPa, pdPa, gpa);
    LowIndices(gpa);
    assert EptEntry(mem, pdPa, gpa, 2) == LeafEntry(base);
    LeafEntryBits(base);
    EptLargePage(mem, pdPa, gpa, 2, TableEntry(pdPa));
    LeafAddress(base, gpa);
  }

  /** The firmware's 2 MiB: every guest address below 2 MiB maps to the same offset of the firmware page. */
  lemma FirmwareWalk(mem: PhysWords, pml4Pa: bv64, pdptPa: bv64, pdPa: bv64, fwBase: bv64, gpa: bv64)
    requires PageAligned(pdptPa) && PageAligned(pdPa) && LargeAligned(fwBase)
    requires mem(pml4Pa) == TableEntry(pdptPa) && mem(pdptPa) == TableEntry(pdPa) && mem(pdPa) == LeafEntry(fwBase)
    requires gpa >> 21 == 0
    ensures EptWalk(mem, pml4Pa, gpa, 0, 0) == Some(fwBase | gpa)
  {
    LowAddress(gpa);
    assert pdPa + (gpa >> 21) * 8 == pdPa;
    LowWalk(mem, pml4Pa, pdptPa, pdPa, fwBase, gpa);
  }

  lemma LowAddress(gpa: bv64)
    requires gpa >> 21 == 0
    ensures gpa >> 30 == 0 && LargeOffset(gpa) == gpa
  {
  }

  /**
   * The kernel's 2 MiB: a guest address in the same 2 MiB frame as
   * kernel_start, below 1 GiB, maps to the same offset of the kernel page.
   */
  lemma KernelWalk(mem: PhysWords, pml4Pa: bv64, pdptPa: bv64, pdPa: bv64, kernelBase: bv64, kernelStart: bv64, gpa: bv64)
    requires PageAligned(pdptPa) && PageAligned(pdPa) && LargeAligned(kernelBase)
    requires mem(pml4Pa) == TableEntry(pdptPa) && mem(pdptPa) == TableEntry(pdPa)
    requires mem(pdPa + (kernelStart >> 21) * 8) == LeafEntry(kernelBase)
    requires kernelStart >> 30 == 0 && gpa >> 21 == kernelStart >> 21
    ensures EptWalk(mem, pml4Pa, gpa, 0, 0) == Some(kernelBase | LargeOffset(gpa))
  {
    SameFrameLow(kernelStart, gpa);
    LowWalk(mem, pml4Pa, pdptPa, pdPa, kernelBase, gpa);
  }

  lemma SameFrameLow(kernelStart: bv64, gpa: bv64)
    requires kernelStart >> 30 == 0 && gpa >> 21 == kernelStart >> 21
    ensures gpa >> 30 == 0
  {
  }

  // ---------------------------------------------------------------------
  // kernel_start above 1 GiB

  /**
   * construct_tdp points only PDPT[0] at `ept_pd_0_4g`, so only the PD's
   * first page is reachable, although kernel_start / 2 MiB may index all
   * four.  For kernel_start in [1 GiB, 4 GiB) the walk of the kernel's
   * frame reads PDPT[kernel_start >> 30], which still holds the 0 of the
   * static array, and fails.
   */
  lemma KernelUnmapped(mem: PhysWords, pml4Pa: bv64, pdptPa: bv64, kernelStart: bv64, gpa: bv64)
    requires PageAligned(pdptPa) && mem(pml4Pa) == TableEntry(pdptPa)
    requires mem(pdptPa + (kernelStart >> 30) * 8) == 0
    requires kernelStart >> 30 != 0 && kernelStart >> 32 == 0 && gpa >> 21 == kernelStart >> 21
    ensures EptWalk(mem, pml4Pa, gpa, 0, 0).None?
  {
    SameGiB(kernelStart, gpa);
    FourGiBIndices(gpa);
    Pml4EntryAt(mem, pml4Pa, gpa);
    PdptEntryAt(mem, pdptPa, gpa, kernelStart);
    TableEntryBits(pdptPa);
    EptWalkNext(mem, pml4Pa, gpa, 0, 0);
    assert !Readable(EptEntry(mem, pdptPa, gpa, 1));
  }

  /**
   * One input: tables at 0x1000 (PML4), 0x2000 (PDPT) and 0x3000 (PD, four
   * pages), kernel_start 0x4000_0000 and the kernel page at 0x40_0000.
   * With the words construct_tdp writes and zeros elsewhere, the guest's
   * kernel_start does not translate.
   */
  lemma KernelAt1GiBUnmapped()
    ensures var ks: bv64 := 0x4000_0000;
      EptWalk(ConstructTdpWords(0x1000, 0x2000, 0x3000, 0x20_0000, 0x40_0000, ks), 0x1000, ks, 0, 0).None?
  {
    var ks: bv64 := 0x4000_0000;
    var mem := ConstructTdpWords(0x1000, 0x2000, 0x3000, 0x20_0000, 0x40_0000, ks);
    assert mem(0x1000) == TableEntry(0x2000);
    assert mem(0x2000 + (ks >> 30) * 8) == 0;
    KernelUnmapped(mem, 0x1000, 0x2000, ks, ks);
  }

  /**
   * The memory construct_tdp leaves, as words at physical addresses: PML4[0],
   * PDPT[0], PD[0] and PD[kernel_start / 2 MiB] (the last write wins), 0
   * everywhere else as in the static arrays.
   */
  function ConstructTdpWords(pml4Pa: bv64, pdptPa: bv64, pdPa: bv64, fwBase: bv64, kernelBase: bv64, kernelStart: bv64): (mem: PhysWords)
    ensures mem(pml4Pa) == TableEntry(pdptPa)
  {
    var kernelSlot := pdPa + (kernelStart >> 21) * 8;
    a => if a == pml4Pa then TableEntry(pdptPa)
         else if a == pdptPa then TableEntry(pdPa)
         else if a == kernelSlot then LeafEntry(kernelBase)
         else if a == pdPa then LeafEntry(fwBase)
         else 0
  }

  /**
   * The corrected construct_tdp also points PDPT[1..3] at the PD's pages
   * 1..3, so PDPT[k] leads to `ept_pd_0_4g + k * 512`.
   */
  function CorrectedPdpt(pdpt: seq<bv64>, pdPa: bv64): (r: seq<bv64>)
    requires |pdpt| == EPT_ENTRIES
    ensures |r| == EPT_ENTRIES
    ensures r[0] == TableEntry(pdPa) && r[1] == TableEntry(pdPa + 0x1000)
    ensures r[2] == TableEntry(pdPa + 0x2000) && r[3] == TableEntry(pdPa + 0x3000)
    ensures forall k :: 4 <= k < EPT_ENTRIES ==> r[k] == pdpt[k]
  {
    pdpt[0 := TableEntry(pdPa)][1 := TableEntry(pdPa + 0x1000)][2 := TableEntry(pdPa + 0x2000)][3 := TableEntry(pdPa + 0x3000)]
  }

  /** Below 4 GiB the PML4 index is 0, the PDPT index is the GiB, and the GiB's PD page and PD index address PD word gpa >> 21. */
  lemma FourGiBIndices(gpa: bv64)
    requires gpa >> 32 == 0
    ensures (gpa >> Shift(0)) & 0x1ff == 0 && (gpa >> Shift(1)) & 0x1ff == gpa >> 30 && gpa >> 30 < 4
    ensures (gpa >> 30) * 0x1000 + ((gpa >> Shift(2)) & 0x1ff) * 8 == (gpa >> 21) * 8
  {
  }

  lemma SameGiB(kernelStart: bv64, gpa: bv64)
    requires kernelStart >> 32 == 0 && gpa >> 21 == kernelStart >> 21
    ensures gpa >> 32 == 0 && gpa >> 30 == kernelStart >> 30
  {
  }

  lemma PdPageAligned(pdPa: bv64, k: bv64)
    requires PageAligned(pdPa) && k < 4
    ensures PageAligned(pdPa + k * 0x1000)
  {
  }

  /**
   * With the corrected PDPT, every guest address in kernel_start's 2 MiB
   * frame maps to the same offset of the kernel page, for any kernel_start
   * below 4 GiB.
   */
  lemma KernelWalkCorrected(mem: PhysWords, pml4Pa: bv64, pdptPa: bv64, pdPa: bv64, kernelBase: bv64, kernelStart: bv64, gpa: bv64)
    requires PageAligned(pdptPa) && PageAligned(pdPa) && LargeAligned(kernelBase)
    requires mem(pml4Pa) == TableEntry(pdptPa)
    requires mem(pdptPa + (kernelStart >> 30) * 8) == TableEntry(pdPa + (kernelStart >> 30) * 0x1000)
    requires mem(pdPa + (kernelStart >> 21) * 8) == LeafEntry(kernelBase)
    requires kernelStart >> 32 == 0 && gpa >> 21 == kernelStart >> 21
    ensures EptWalk(mem, pml4Pa, gpa, 0, 0) == Some(kernelBase | LargeOffset(gpa))
  {
    SameGiB(kernelStart, gpa);
    FourGiBIndices(gpa);
    var pdPage := pdPa + (kernelStart >> 30) * 0x1000;
    PdPageAligned(pdPa, kernelStart >> 30);
    CorrectedWalkPrefix(mem, pml4Pa, pdptPa, pdPage, kernelStart, gpa);
    CorrectedLeaf(mem, pdPa, kernelBase, kernelStart, gpa);
    LeafEntryBits(kernelBase);
    EptLargePage(mem, pdPage, gpa, 2, TableEntry(pdPage));
    LeafAddress(kernelBase, gpa);
  }

  /** The first two levels of the corrected walk: PML4[0], then PDPT[kernel_start >> 30] to the GiB's PD page. */
  lemma CorrectedWalkPrefix(mem: PhysWords, pml4Pa: bv64, pdptPa: bv64, pdPage: bv64, kernelStart: bv64, gpa: bv64)
    requires PageAligned(pdptPa) && PageAligned(pdPage)
    requires mem(pml4Pa) == TableEntry(pdptPa) && mem(pdptPa + (kernelStart >> 30) * 8) == TableEntry(pdPage)
    requires (gpa >> Shift(0)) & 0x1ff == 0 && (gpa >> Shift(1)) & 0x1ff == kernelStart >> 30
    ensures EptWalk(mem, pml4Pa, gpa, 0, 0) == EptWalk(mem, pdPage, gpa, 2, TableEntry(pdPage))
  {
    Pml4EntryAt(mem, pml4Pa, gpa);
    PdptEntryAt(mem, pdptPa, gpa, kernelStart);
    TableEntryBits(pdptPa);
    TableEntryBits(pdPage);
    EptWalkNext(mem, pml4Pa, gpa, 0, 0);
    EptWalkNext(mem, pdptPa, gpa, 1, TableEntry(pdptPa));
  }

  lemma Pml4EntryAt(mem: PhysWords, pml4Pa: bv64, gpa: bv64)
    requires (gpa >> Shift(0)) & 0x1ff == 0
    ensures EptEntry(mem, pml4Pa, gpa, 0) == mem(pml4Pa)
  {
  }

  lemma PdptEntryAt(mem: PhysWords, pdptPa: bv64, gpa: bv64, kernelStart: bv64)
    requires (gpa >> Shift(1)) & 0x1ff == kernelStart >> 30
    ensures EptEntry(mem, pdptPa, gpa, 1) == mem(pdptPa + (kernelStart >> 30) * 8)
  {
    ShiftValues();
  }

  /** The third level of the corrected walk: the GiB's PD page holds kernel_start's leaf at the frame's index. */
  lemma CorrectedLeaf(mem: PhysWords, pdPa: bv64, kernelBase: bv64, kernelStart: bv64, gpa: bv64)
    requires mem(pdPa + (kernelStart >> 21) * 8) == LeafEntry(kernelBase)
    requires kernelStart >> 32 == 0 && gpa >> 21 == kernelStart >> 21
    ensures EptEntry(mem, pdPa + (kernelStart >> 30) * 0x1000, gpa, 2) == LeafEntry(kernelBase)
  {
    PdWordAt(mem, pdPa, kernelStart, gpa);
  }

  /** The PD entry the corrected walk reads for gpa is kernel_start's PD word. */
  lemma PdWordAt(mem: PhysWords, pdPa: bv64, kernelStart: bv64, gpa: bv64)
    requires kernelStart >> 32 == 0 && gpa >> 21 == kernelStart >> 21
    ensures EptEntry(mem, pdPa + (kernelStart >> 30) * 0x1000, gpa, 2) == mem(pdPa + (kernelStart >> 21) * 8)
  {
    PdWordSlot(mem, pdPa, kernelStart, gpa);
    LevelTwoEntry(mem, pdPa + (kernelStart >> 30) * 0x1000, gpa);
  }

  lemma PdWordSlot(mem: PhysWords, pdPa: bv64, kernelStart: bv64, gpa: bv64)
    requires kernelStart >> 32 == 0 && gpa >> 21 == kernelStart >> 21
    ensures mem(pdPa + (kernelStart >> 21) * 8) == mem(pdPa + (kernelStart >> 30) * 0x1000 + ((gpa >> 21) & 0x1ff) * 8)
  {
    KernelPdSlot(pdPa, kernelStart, gpa);
    SameWord(mem, pdPa + (kernelStart >> 21) * 8, pdPa + (kernelStart >> 30) * 0x1000 + ((gpa >> 21) & 0x1ff) * 8);
  }

  lemma LevelTwoEntry(mem: PhysWords, table: bv64, gpa: bv64)
    ensures EptEntry(mem, table, gpa, 2) == mem(table + ((gpa >> 21) & 0x1ff) * 8)
  {
    ShiftValues();
  }

  /** Words read at equal addresses are equal, stated on the addresses alone. */
  lemma SameWord(mem: PhysWords, a: bv64, b: bv64)
    requires a == b
    ensures mem(a) == mem(b)
  {
  }

  /** kernel_start's PD word, addressed as the corrected walk reaches it: the GiB's PD page, then the frame's index in that page. */
  lemma KernelPdSlot(pdPa: bv64, kernelStart: bv64, gpa: bv64)
    requires kernelStart >> 32 == 0 && gpa >> 21 == kernelStart >> 21
    ensures pdPa + (kernelStart >> 21) * 8 == pdPa + (kernelStart >> 30) * 0x1000 + ((gpa >> 21) & 0x1ff) * 8
  {
  }

  /** The shift of each level's index, evaluated once so that the solver need not unfold the table. */
  lemma ShiftValues()
    ensures Shift(0) == 39 && Shift(1) == 30 && Shift(2) == 21 && Shift(3) == 12
  {
  }

  /** `ept_pd_0_4g` after construct_tdp: the firmware leaf at 0, the kernel leaf at kernel_start / 2 MiB. */
  function ConstructPd(pd: seq<bv64>, fwBase: bv64, kernelBase: bv64, kernelStart: nat): (r: seq<bv64>)
    requires |pd| == 4 * EPT_ENTRIES && kernelStart < 0x1_0000_0000
    ensures |r| == |pd|
  {
    pd[0 := LeafEntry(fwBase)][kernelStart / SZ_2M := LeafEntry(kernelBase)]
  }

  /**
   * With the kernel above the firmware's 2 MiB, the PD holds both leaves and
   * nothing else changes; with kernel_start below 2 MiB the kernel leaf
   * replaces the firmware's.
   */
  lemma ConstructPdEntries(pd: seq<bv64>, fwBase: bv64, kernelBase: bv64, kernelStart: nat)
    requires |pd| == 4 * EPT_ENTRIES && kernelStart < 0x1_0000_0000
    ensures kernelStart >= SZ_2M ==> ConstructPd(pd, fwBase, kernelBase, kernelStart)[0] == LeafEntry(fwBase)
    ensures kernelStart < SZ_2M ==> ConstructPd(pd, fwBase, kernelBase, kernelStart)[0] == LeafEntry(kernelBase)
    ensures ConstructPd(pd, fwBase, kernelBase, kernelStart)[kernelStart / SZ_2M] == LeafEntry(kernelBase)
    ensures forall k :: 0 < k < |pd| && k != kernelStart / SZ_2M ==> ConstructPd(pd, fwBase, kernelBase, kernelStart)[k] == pd[k]
  {
  }

  // ---------------------------------------------------------------------
  // run_vcpu: entering the guest in real mode

  /**
   * The CS of `run_vcpu`: a present, accessed, readable 64 KiB code segment
   * whose base is start_ip with the low 16 bits cleared; the members the
   * initialiser leaves out are 0, and the selector is the `uint16_t`
   * truncation of base >> 4.
   */
  function RealModeCs(startIp: bv64): Segment
  {
    var base := startIp & 0xffff_0000;
    Segment(base, 0xffff, (base >> 4) & 0xffff, 11, 1, 0, 0, 1, 0, 0, 0, 0)
  }

  /** The RIP of `run_vcpu`: the low 16 bits of start_ip. */
  function StartRip(startIp: bv64): bv64 { startIp & 0xffff }

  /** `run_vcpu` up to `kvm_loop`: CS, then RIP. */
  function EnterRealMode(v: Vmcs, startIp: bv64): Vmcs
  {
    SetRip(SetSegment(v, RealModeCs(startIp), VCPU_SREG_CS), StartRip(startIp))
  }

  /** CS.base + RIP is start_ip, for every 32-bit start_ip. */
  lemma RealModeSplit(startIp: bv64)
    requires startIp >> 32 == 0
    ensures RealModeCs(startIp).base + StartRip(startIp) == startIp
    ensures RealModeCs(startIp).base & 0xffff == 0 && StartRip(startIp) >> 16 == 0
  {
  }

  /** Below 1 MiB the selector is the real-mode paragraph of the base: base == selector * 16. */
  lemma RealModeSelector(startIp: bv64)
    requires startIp >> 20 == 0
    ensures RealModeCs(startIp).selector * 16 == RealModeCs(startIp).base
  {
  }

  /** From 1 MiB on the selector is truncated: 0x100000 gets base 0x100000 and selector 0. */
  lemma RealModeSelectorTruncated()
    ensures RealModeCs(0x10_0000).base == 0x10_0000 && RealModeCs(0x10_0000).selector == 0
  {
  }

  /** The CS of `run_vcpu` fits `struct kvm_segment` and the access-rights encoding. */
  lemma RealModeCsEncodable(startIp: bv64)
    ensures Encodable(RealModeCs(startIp))
  {
  }

  /** After `run_vcpu` the guest reads back exactly the CS it was given and RIP = start_ip & 0xffff. */
  lemma EnterRealModeState(v: Vmcs, startIp: bv64)
    ensures GetSegment(EnterRealMode(v, startIp), VCPU_SREG_CS) == RealModeCs(startIp)
    ensures GetRip(EnterRealMode(v, startIp)) == StartRip(startIp)
  {
    var w := SetSegment(v, RealModeCs(startIp), VCPU_SREG_CS);
    RealModeCsEncodable(startIp);
    SegmentRoundTrip(v, RealModeCs(startIp), VCPU_SREG_CS);
    SameSegment(w, EnterRealMode(v, startIp), VCPU_SREG_CS);
  }

  /** `kvm_bsp_run`: the boot processor starts at FIRMWARE_START = 0x1000, i.e. CS base 0, selector 0, RIP 0x1000. */
  lemma BootProcessorStart()
    ensures RealModeCs(0x1000).base == 0 && RealModeCs(0x1000).selector == 0 && StartRip(0x1000) == 0x1000
  {
  }

  /** `run_vcpu` on a VMX virtual CPU, up to the run loop. */
  method RunVcpu(cv: VcpuVmx, startIp: bv64)
    modifies cv
    ensures cv.vmcs == EnterRealMode(old(cv.vmcs), startIp)
  {
    var cs := RealModeCs(startIp);
    cv.SetSegmentOf(cs, VCPU_SREG_CS);
    cv.vmcs := SetRip(cv.vmcs, StartRip(startIp));
  }

  // ---------------------------------------------------------------------
  // kvm_init: the guest_params header and the copies into guest memory

  /** The displacement of the header's jump: `sizeof(guest_params) - 3`. */
  const HEADER_JUMP: nat := GUEST_PARAMS_SIZE - 3

  /** guest_params.magic once `kvm_init` has set its first three bytes; the other five keep their value. */
  function Header(magic: seq<u8>): (r: seq<u8>)
    requires |magic| == 8
    ensures |r| == 8
  {
    [0xe9, HEADER_JUMP % 256, HEADER_JUMP / 256 % 256] + magic[3..]
  }

  /**
   * The header is a real-mode `jmp rel16` (opcode 0xe9, little-endian
   * displacement) over the whole of guest_params: executed at the start of
   * the image it lands on the first byte after the 3628-byte structure.
   */
  lemma HeaderJumpsOverParams(magic: seq<u8>)
    requires |magic| == 8
    ensures GUEST_PARAMS_SIZE == 3628
    ensures Header(magic)[..3] == [0xe9, 0x29, 0x0e]
    ensures 3 + LittleEndian(Header(magic)[1..3]) == GUEST_PARAMS_SIZE
  {
    assert Header(magic)[1..3] == [0x29, 0x0e];
    assert LittleEndian([0x29, 0x0e]) == 0x29 + 256 * LittleEndian([0x0e]);
  }

  /** Overwriting the front of m: data, then the rest of m. */
  lemma OverwriteFront<T>(m: seq<T>, data: seq<T>)
    requires |data| <= |m|
    ensures StringLib.Overwrite(m, 0, data)[..|data|] == data
    ensures StringLib.Overwrite(m, 0, data)[|data|..] == m[|data|..]
  {
  }

  /** memcpy from a buffer outside the destination array. */
  method CopyIn<T>(dst: array<T>, at: nat, data: seq<T>)
    requires at + |data| <= dst.Length
    modifies dst
    ensures dst[..] == StringLib.Overwrite(old(dst[..]), at, data)
  {
    ghost var m := dst[..];
    forall k | at <= k < at + |data| {
      dst[k] := data[k - at];
    }
    StringLib.OverwriteIntro(dst[..], m, at, data);
  }

  /**
   * The firmware bytes the magic check of `kvm_init` compares: the eight at
   * FIRMWARE_START after the firmware image is copied there.
   */
  function FirmwareMagic(fwMem: seq<u8>, firmware: seq<u8>): (r: seq<u8>)
    requires FIRMWARE_START + |firmware| <= |fwMem| && FIRMWARE_START + 8 <= |fwMem|
    ensures |r| == 8
  {
    StringLib.Overwrite(fwMem, FIRMWARE_START, firmware)[FIRMWARE_START..FIRMWARE_START + 8]
  }

  /** For an image of at least 8 bytes the check compares the image's own first 8 bytes. */
  lemma FirmwareMagicOfImage(fwMem: seq<u8>, firmware: seq<u8>)
    requires FIRMWARE_START + |firmware| <= |fwMem| && 8 <= |firmware|
    ensures FirmwareMagic(fwMem, firmware) == firmware[..8]
  {
    forall k | 0 <= k < 8
      ensures FirmwareMagic(fwMem, firmware)[k] == firmware[k]
    {
      StringLib.OverwriteAt(fwMem, FIRMWARE_START, firmware, FIRMWARE_START + k);
    }
  }

  /**
   * The guest firmware page after `kvm_init`: guest_params at FIRMWARE_START,
   * then the rest of the firmware image, and nothing else changed.
   */
  lemma ParamsOverFirmware(fwMem: seq<u8>, firmware: seq<u8>, params: seq<u8>)
    requires FIRMWARE_START + |firmware| <= |fwMem| && |params| <= |firmware|
    ensures var r := StringLib.Overwrite(StringLib.Overwrite(fwMem, FIRMWARE_START, firmware), FIRMWARE_START, params);
      && r[FIRMWARE_START..FIRMWARE_START + |params|] == params
      && r[FIRMWARE_START + |params|..FIRMWARE_START + |firmware|] == firmware[|params|..]
      && r[..FIRMWARE_START] == fwMem[..FIRMWARE_START]
      && r[FIRMWARE_START + |firmware|..] == fwMem[FIRMWARE_START + |firmware|..]
  {
    var at := FIRMWARE_START;
    var m1 := StringLib.Overwrite(fwMem, at, firmware);
    assert m1[..at] == fwMem[..at];
    assert m1[at + |params|..] == firmware[|params|..] + fwMem[at + |firmware|..];
    var r := StringLib.Overwrite(m1, at, params);
    assert r == fwMem[..at] + params + (firmware[|params|..] + fwMem[at + |firmware|..]);
  }

  /**
   * The VMM's static state that `kvm_init` fills in: the EPT tables, the
   * guest_params structure, the 2 MiB pages backing the guest's firmware
   * and kernel, and vmx.c's MSR bitmap that `hardware_setup` programs.
   */
  class Hypervisor {
    const eptPml4: array<bv64>
    const eptPdpt: array<bv64>
    const eptPd: array<bv64>
    const params: GuestParams
    const firmwareMem: array<u8>
    const kernelMem: array<u8>
    const msrBitmap: array<Bitops.Word>

    ghost predicate Valid()
      reads this, params
    {
      && eptPml4.Length == EPT_ENTRIES && eptPdpt.Length == EPT_ENTRIES && eptPd.Length == 4 * EPT_ENTRIES
      && eptPml4 != eptPdpt && eptPml4 != eptPd && eptPdpt != eptPd
      && params.Valid() && firmwareMem.Length == SZ_2M && kernelMem.Length == SZ_2M
      && firmwareMem != kernelMem && firmwareMem != params.magic && kernelMem != params.magic
      && firmwareMem as object != params.mem && kernelMem as object != params.mem
      && msrBitmap.Length == MSR_BITMAP_WORDS
      && msrBitmap as object != eptPml4 && msrBitmap as object != eptPdpt && msrBitmap as object != eptPd
      && msrBitmap as object != firmwareMem && msrBitmap as object != kernelMem
      && msrBitmap as object != params.magic && msrBitmap as object != params.e820Table
    }

    constructor (hostMem: array<bv8>, cmdlineAt: nat)
      requires cmdlineAt + CMDLINE_SIZE <= hostMem.Length
      ensures Valid() && fresh(params)
    {
      eptPml4 := new bv64[EPT_ENTRIES](_ => 0);
      eptPdpt := new bv64[EPT_ENTRIES](_ => 0);
      eptPd := new bv64[4 * EPT_ENTRIES](_ => 0);
      params := new GuestParams(hostMem, cmdlineAt);
      firmwareMem := new u8[SZ_2M](_ => 0);
      kernelMem := new u8[SZ_2M](_ => 0);
      msrBitmap := new Bitops.Word[MSR_BITMAP_WORDS](_ => 0);
    }

    /**
     * `construct_tdp`, with the physical addresses of the PDPT and PD and the
     * 2 MiB-aligned bases of the two guest pages as parameters.
     * kernel_start is a 32-bit multiboot module address, so the PD index is
     * below 2048.
     */
    method ConstructTdp(pdptPa: bv64, pdPa: bv64, fwBase: bv64, kernelBase: bv64)
      requires Valid() && params.kernelStart < 0x1_0000_0000
      modifies eptPml4, eptPdpt, eptPd
      ensures eptPml4[..] == old(eptPml4[..])[0 := TableEntry(pdptPa)]
      ensures eptPdpt[..] == old(eptPdpt[..])[0 := TableEntry(pdPa)]
      ensures eptPd[..] == ConstructPd(old(eptPd[..]), fwBase, kernelBase, params.kernelStart)
    {
      eptPml4[0] := TableEntry(pdptPa);
      eptPdpt[0] := TableEntry(pdPa);
      eptPd[0] := LeafEntry(fwBase);
      eptPd[params.kernelStart / SZ_2M] := LeafEntry(kernelBase);
    }

    /**
     * construct_tdp with PDPT[1..3] also pointed at the PD's pages 1..3, so
     * that every kernel_start below 4 GiB reaches its PD slot
     * (Kvm.KernelWalkCorrected).
     */
    method ConstructTdpCorrected(pdptPa: bv64, pdPa: bv64, fwBase: bv64, kernelBase: bv64)
      requires Valid() && params.kernelStart < 0x1_0000_0000
      modifies eptPml4, eptPdpt, eptPd
      ensures eptPml4[..] == old(eptPml4[..])[0 := TableEntry(pdptPa)]
      ensures eptPdpt[..] == CorrectedPdpt(old(eptPdpt[..]), pdPa)
      ensures eptPd[..] == ConstructPd(old(eptPd[..]), fwBase, kernelBase, params.kernelStart)
    {
      eptPml4[0] := TableEntry(pdptPa);
      eptPdpt[0] := TableEntry(pdPa);
      eptPdpt[1] := TableEntry(pdPa + 0x1000);
      eptPdpt[2] := TableEntry(pdPa + 0x2000);
      eptPdpt[3] := TableEntry(pdPa + 0x3000);
      eptPd[0] := LeafEntry(fwBase);
      eptPd[params.kernelStart / SZ_2M] := LeafEntry(kernelBase);
    }

    /**
     * `kvm_init`.  hasSupport and disabledByBios are the answers of
     * cpu_has_kvm_support and disabled_by_bios, and ept is the EPT
     * capability word that `hardware_setup` tests; firmware is the linked-in
     * firmware image, table the host e820 table, and image the kernel's
     * bytes at [kernel_start, kernel_end).  ok is false for a panic or a
     * failed BUG_ON, which stop the VMM.  The requires are the bounds the
     * C code's memcpy calls rely on without checking them.
     */
    method KvmInit(hasSupport: bool, disabledByBios: bool, ept: bv64, firmware: seq<u8>, table: E820.Table, image: seq<u8>,
                   pdptPa: bv64, pdPa: bv64, fwBase: bv64, kernelBase: bv64) returns (ok: bool)
      requires Valid() && params.kernelStart < 0x1_0000_0000
      requires table.nrEntries <= table.entries.Length && table.entries != params.e820Table
      requires FIRMWARE_START + |firmware| <= SZ_2M
      requires params.kernelStart <= params.kernelEnd && |image| == params.kernelEnd - params.kernelStart
      requires params.kernelStart % SZ_2M + |image| <= SZ_2M
      modifies eptPml4, eptPdpt, eptPd, params, params.magic, params.e820Table, firmwareMem, kernelMem, msrBitmap
      ensures Valid()
      ensures ok <==> hasSupport && !disabledByBios
                      && ept & VMX_EPT_2MB_PAGE_BIT != 0 && ept & VMX_EPT_PAGE_WALK_4_BIT != 0
                      && table.nrEntries <= E820_MAX_ENTRIES_GUEST
                      && FirmwareMagic(old(firmwareMem[..]), firmware) == Header(old(params.magic[..]))
      ensures table.Valid() ==> table.nrEntries <= E820_MAX_ENTRIES_GUEST
      ensures ok ==> msrBitmap[..] == HardwareSetupBitmap(old(msrBitmap[..]))
      ensures ok ==> && eptPml4[..] == old(eptPml4[..])[0 := TableEntry(pdptPa)]
                     && eptPdpt[..] == old(eptPdpt[..])[0 := TableEntry(pdPa)]
                     && eptPd[..] == ConstructPd(old(eptPd[..]), fwBase, kernelBase, old(params.kernelStart))
      ensures ok ==> && params.magic[..] == Header(old(params.magic[..]))
                     && params.e820Table[..table.nrEntries] == table.entries[..table.nrEntries]
                     && params.e820Table[table.nrEntries..] == old(params.e820Table[table.nrEntries..])
                     && params.e820Entries as nat == table.nrEntries
      ensures ok ==> && params.kernelStart == old(params.kernelStart) && params.kernelEnd == old(params.kernelEnd)
                     && params.initrdStart == old(params.initrdStart) && params.initrdEnd == old(params.initrdEnd)
      ensures ok ==> firmwareMem[..] == StringLib.Overwrite(StringLib.Overwrite(old(firmwareMem[..]), FIRMWARE_START, firmware),
                                                             FIRMWARE_START, params.Bytes())
      ensures ok ==> kernelMem[..] == StringLib.Overwrite(old(kernelMem[..]), params.kernelStart % SZ_2M, image)
    {
      if !hasSupport {
        return false;  // no hardware support
      }
      if disabledByBios {
        return false;  // disabled by bios
      }
      ok := HardwareSetup(msrBitmap, ept);
      if !ok {
        return;
      }
      ok := SetUpGuest(firmware, table, image, pdptPa, pdPa, fwBase, kernelBase);
    }

    /**
     * The rest of `kvm_init` after `hardware_setup`: construct_tdp, the
     * firmware copy, guest_params and the guest's installation.
     */
    method SetUpGuest(firmware: seq<u8>, table: E820.Table, image: seq<u8>,
                      pdptPa: bv64, pdPa: bv64, fwBase: bv64, kernelBase: bv64) returns (ok: bool)
      requires Valid() && params.kernelStart < 0x1_0000_0000
      requires table.nrEntries <= table.entries.Length && table.entries != params.e820Table
      requires FIRMWARE_START + |firmware| <= SZ_2M
      requires params.kernelStart <= params.kernelEnd && |image| == params.kernelEnd - params.kernelStart
      requires params.kernelStart % SZ_2M + |image| <= SZ_2M
      modifies eptPml4, eptPdpt, eptPd, params, params.magic, params.e820Table, firmwareMem, kernelMem
      ensures Valid()
      ensures ok <==> table.nrEntries <= E820_MAX_ENTRIES_GUEST
                      && FirmwareMagic(old(firmwareMem[..]), firmware) == Header(old(params.magic[..]))
      ensures table.Valid() ==> table.nrEntries <= E820_MAX_ENTRIES_GUEST
      ensures ok ==> && eptPml4[..] == old(eptPml4[..])[0 := TableEntry(pdptPa)]
                     && eptPdpt[..] == old(eptPdpt[..])[0 := TableEntry(pdPa)]
                     && eptPd[..] == ConstructPd(old(eptPd[..]), fwBase, kernelBase, old(params.kernelStart))
      ensures ok ==> && params.magic[..] == Header(old(params.magic[..]))
                     && params.e820Table[..table.nrEntries] == table.entries[..table.nrEntries]
                     && params.e820Table[table.nrEntries..] == old(params.e820Table[table.nrEntries..])
                     && params.e820Entries as nat == table.nrEntries
      ensures ok ==> && params.kernelStart == old(params.kernelStart) && params.kernelEnd == old(params.kernelEnd)
                     && params.initrdStart == old(params.initrdStart) && params.initrdEnd == old(params.initrdEnd)
      ensures ok ==> firmwareMem[..] == StringLib.Overwrite(StringLib.Overwrite(old(firmwareMem[..]), FIRMWARE_START, firmware),
                                                             FIRMWARE_START, params.Bytes())
      ensures ok ==> kernelMem[..] == StringLib.Overwrite(old(kernelMem[..]), params.kernelStart % SZ_2M, image)
    {
      ConstructTdp(pdptPa, pdPa, fwBase, kernelBase);
      LoadFirmware(firmware);
      ghost var e820Old := params.e820Table[..];
      ok := InitGuestParams(table);
      if !ok {
        return;
      }
      OverwriteFront(e820Old, table.entries[..table.nrEntries]);
      ok := InstallGuest(image);
    }

    /** The magic check of `kvm_init`, then the copies of guest_params and of the kernel image. */
    method InstallGuest(image: seq<u8>) returns (ok: bool)
      requires Valid() && params.kernelStart % SZ_2M + |image| <= SZ_2M
      modifies firmwareMem, kernelMem
      ensures ok <==> old(firmwareMem[FIRMWARE_START..FIRMWARE_START + 8]) == params.magic[..]
      ensures ok ==> && firmwareMem[..] == StringLib.Overwrite(old(firmwareMem[..]), FIRMWARE_START, params.Bytes())
                     && kernelMem[..] == StringLib.Overwrite(old(kernelMem[..]), params.kernelStart % SZ_2M, image)
    {
      if params.magic[..] != firmwareMem[FIRMWARE_START..FIRMWARE_START + 8] {
        return false;  // firmware magic doesn't match
      }
      CopyIn(firmwareMem, FIRMWARE_START, params.Bytes());
      CopyIn(kernelMem, params.kernelStart % SZ_2M, image);
      ok := true;
    }

    /** The firmware copy of `kvm_init`. */
    method LoadFirmware(firmware: seq<u8>)
      requires Valid() && FIRMWARE_START + |firmware| <= SZ_2M
      modifies firmwareMem
      ensures firmwareMem[..] == StringLib.Overwrite(old(firmwareMem[..]), FIRMWARE_START, firmware)
      ensures firmwareMem[FIRMWARE_START..FIRMWARE_START + 8] == FirmwareMagic(old(firmwareMem[..]), firmware)
    {
      CopyIn(firmwareMem, FIRMWARE_START, firmware);
    }

    /** The e820 copy (with its BUG_ON) and the header assignments of `kvm_init`. */
    method InitGuestParams(table: E820.Table) returns (ok: bool)
      requires Valid()
      requires table.nrEntries <= table.entries.Length && table.entries != params.e820Table
      modifies params, params.magic, params.e820Table
      ensures ok <==> table.nrEntries <= E820_MAX_ENTRIES_GUEST
      ensures ok ==> && params.magic[..] == Header(old(params.magic[..]))
                     && params.e820Table[..] == StringLib.Overwrite(old(params.e820Table[..]), 0, table.entries[..table.nrEntries])
                     && params.e820Entries as nat == table.nrEntries
      ensures && params.kernelStart == old(params.kernelStart) && params.kernelEnd == old(params.kernelEnd)
              && params.initrdStart == old(params.initrdStart) && params.initrdEnd == old(params.initrdEnd)
    {
      if E820_MAX_ENTRIES_GUEST < table.nrEntries {
        return false;
      }
      CopyIn(params.e820Table, 0, table.entries[..table.nrEntries]);
      params.e820Entries := table.nrEntries;
      SetHeader();
      ok := true;
    }

    /** The three header assignments of `kvm_init`. */
    method SetHeader()
      requires Valid()
      modifies params.magic
      ensures params.magic[..] == Header(old(params.magic[..]))
    {
      params.magic[0] := 0xe9;
      params.magic[1] := HEADER_JUMP % 256;
      params.magic[2] := HEADER_JUMP / 256 % 256;
    }
  }
}
