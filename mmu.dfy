/**
 * The page-table geometry of include/asm/mmu.h: page size and masks, the
 * physical-address mask, the four 9-bit table indices of a 4-level walk
 * and the limit of physical memory, as 64-bit words.
 */
module Mmu {
  import opened Machine

  const PAGE_SHIFT: bv64 := 12
  const PAGE_SIZE: bv64 := 1 << PAGE_SHIFT
  const PAGE_MASK: bv64 := !(PAGE_SIZE - 1)

  const PHYSICAL_MASK_SHIFT: bv64 := 46
  const PHYSICAL_MASK: bv64 := (1 << PHYSICAL_MASK_SHIFT) - 1

  const PTRS_PER_TABLE: bv64 := 512
  const PT_SHIFT: bv64 := 12
  const PD_SHIFT: bv64 := 21
  const PDPT_SHIFT: bv64 := 30
  const PML4_SHIFT: bv64 := 39

  const MAX_PHYSMEM_BITS: bv64 := 46
  const MAXMEM: bv64 := 1 << MAX_PHYSMEM_BITS
  const MAXMEM_PFN: bv64 := MAXMEM >> PAGE_SHIFT

  const PTE_PFN_SHIFT: bv64 := PAGE_SHIFT
  const PTE_PFN_MASK: bv64 := PAGE_MASK & PHYSICAL_MASK

  const PTE_PRESENT: bv64 := 1 << 0
  const PTE_RW: bv64 := 1 << 1
  const PTE_USER: bv64 := 1 << 2
  const PTE_PSE: bv64 := 1 << 7

  function PtIndex(x: bv64): bv64 { (x >> PT_SHIFT) & (PTRS_PER_TABLE - 1) }
  function PdIndex(x: bv64): bv64 { (x >> PD_SHIFT) & (PTRS_PER_TABLE - 1) }
  function PdptIndex(x: bv64): bv64 { (x >> PDPT_SHIFT) & (PTRS_PER_TABLE - 1) }
  function Pml4Index(x: bv64): bv64 { (x >> PML4_SHIFT) & (PTRS_PER_TABLE - 1) }

  /** Each index is below 512 and is bits 12-20, 21-29, 30-38 and 39-47 of the address. */
  lemma IndexBounds(x: bv64)
    ensures PtIndex(x) < 512 && PdIndex(x) < 512 && PdptIndex(x) < 512 && Pml4Index(x) < 512
  {}

  lemma IndexBitsLow(x: bv64, j: bv64)
    requires j < 9
    ensures Bit64(PtIndex(x), j) == Bit64(x, 12 + j)
    ensures Bit64(PdIndex(x), j) == Bit64(x, 21 + j)
  {}

  lemma IndexBitsHigh(x: bv64, j: bv64)
    requires j < 9
    ensures Bit64(PdptIndex(x), j) == Bit64(x, 30 + j)
    ensures Bit64(Pml4Index(x), j) == Bit64(x, 39 + j)
  {}

  /** A 48-bit address is recovered from its four indices and its page offset. */
  lemma IndexDecomposition(x: bv64)
    requires x < 1 << 48
    ensures x == (Pml4Index(x) << 39) | (PdptIndex(x) << 30) | (PdIndex(x) << 21) | (PtIndex(x) << 12) | (x & 0xfff)
  {}

  /** PAGE_MASK clears the low 12 bits and keeps all the others. */
  lemma PageMaskClearsOffset(x: bv64)
    ensures (x & PAGE_MASK) & 0xfff == 0
    ensures (x & PAGE_MASK) | (x & 0xfff) == x
  {}

  /** PTE_PFN_MASK selects bits 12..45. */
  lemma PtePfnMaskBits(j: bv64)
    requires j < 64
    ensures Bit64(PTE_PFN_MASK, j) <==> 12 <= j < 46
  {}

  lemma MaxmemPfnValue()
    ensures MAXMEM_PFN as int == 0x4_0000_0000
  {}
}
