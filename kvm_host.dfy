/**
 * The virtual CPU's general-purpose register file (`include/asm/kvm_host.h`):
 * `regs[NR_VCPU_REGS]` indexed by `enum kvm_reg`, the single-register
 * accessors and the EDX:EAX pair that RDMSR, WRMSR and RDTSC use.
 *
 * Register values are 64-bit patterns (`bv64`), since every use of them
 * in the VMM is bitwise.
 */
module KvmHost {

  const VCPU_REGS_RAX: nat := 0
  const VCPU_REGS_RCX: nat := 1
  const VCPU_REGS_RDX: nat := 2
  const VCPU_REGS_RBX: nat := 3
  const VCPU_REGS_R11: nat := 11
  const NR_VCPU_REGS: nat := 16

  /** The low 32 bits of a register: a cast to `uint32_t`, widened back to 64 bits. */
  function Low32(v: bv64): (r: bv64)
  {
    v & 0xffff_ffff
  }

  /**
   * `kvm_read_edx_eax` on register values rax and rdx: EAX in the low
   * half of the result, EDX in the high half.
   */
  function EdxEax(rax: bv64, rdx: bv64): (v: bv64)
    ensures Low32(v) == Low32(rax)
    ensures v >> 32 == Low32(rdx)
  {
    Low32(rax) | (Low32(rdx) << 32)
  }

  /**
   * The register values `kvm_write_edx_eax(v)` stores: RAX gets the low 32
   * bits of v and RDX the high 32 bits, both zero-extended.
   */
  function SplitEdxEax(v: bv64): (r: (bv64, bv64))
    ensures r.0 >> 32 == 0 && r.1 >> 32 == 0
    ensures r.0 | (r.1 << 32) == v
  {
    (Low32(v), Low32(v >> 32))
  }

  /** Reading EDX:EAX after writing v gives v back. */
  lemma EdxEaxRoundTrip(v: bv64)
    ensures EdxEax(SplitEdxEax(v).0, SplitEdxEax(v).1) == v
  {
  }

  /** Writing the split of a pair read as EDX:EAX restores the low halves of that pair. */
  lemma SplitOfEdxEax(rax: bv64, rdx: bv64)
    ensures SplitEdxEax(EdxEax(rax, rdx)) == (Low32(rax), Low32(rdx))
  {
  }

  /** `struct kvm_vcpu`: the guest's general-purpose registers as saved at VM exit. */
  class Vcpu {
    const regs: array<bv64>

    constructor()
      ensures regs.Length == NR_VCPU_REGS && fresh(regs)
    {
      regs := new bv64[NR_VCPU_REGS];
    }

    /** `kvm_register_read`. */
    function RegisterRead(reg: nat): bv64
      requires reg < regs.Length
      reads regs
    {
      regs[reg]
    }

    /** `kvm_register_write`: only the named register changes. */
    method RegisterWrite(reg: nat, val: bv64)
      requires reg < regs.Length
      modifies regs
      ensures regs[..] == old(regs[..])[reg := val]
      ensures RegisterRead(reg) == val
      ensures forall r :: 0 <= r < regs.Length && r != reg ==> RegisterRead(r) == old(RegisterRead(r))
    {
      regs[reg] := val;
    }

    /** `kvm_read_edx_eax`. */
    function ReadEdxEax(): bv64
      requires regs.Length == NR_VCPU_REGS
      reads regs
    {
      EdxEax(RegisterRead(VCPU_REGS_RAX), RegisterRead(VCPU_REGS_RDX))
    }

    /** `kvm_write_edx_eax`: RAX and RDX change, and reading the pair back gives val. */
    method WriteEdxEax(val: bv64)
      requires regs.Length == NR_VCPU_REGS
      modifies regs
      ensures regs[..] == old(regs[..])[VCPU_REGS_RAX := SplitEdxEax(val).0][VCPU_REGS_RDX := SplitEdxEax(val).1]
      ensures ReadEdxEax() == val
    {
      RegisterWrite(VCPU_REGS_RAX, Low32(val));
      RegisterWrite(VCPU_REGS_RDX, Low32(val >> 32));
      EdxEaxRoundTrip(val);
    }
  }
}
