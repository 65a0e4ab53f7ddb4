/**
 * Single-mask facts about 64-bit patterns that the VMX and KVM models use
 * to follow a value through a read-modify-write of a VMCS field or a
 * register: setting, clearing and keeping bits, and the truncation to
 * 32 bits of `uint32_t` variables.
 */
module BitFacts {
  import opened KvmHost

  /** `x | m` has every bit of m. */
  lemma OrSets(x: bv64, m: bv64)
    ensures (x | m) & m == m
  {
  }

  /** `x | m` agrees with x outside m. */
  lemma OrKeepsOthers(x: bv64, m: bv64)
    ensures (x | m) & !m == x & !m
  {
  }

  /** `x & ~m` has no bit of m. */
  lemma AndNotClears(x: bv64, m: bv64)
    ensures (x & !m) & m == 0
  {
  }

  /** `x & ~m` agrees with x outside m. */
  lemma AndNotKeepsOthers(x: bv64, m: bv64)
    ensures (x & !m) & !m == x & !m
  {
  }

  /** Setting the bits of m leaves a bit b outside m as it was. */
  lemma OrKeepsBit(x: bv64, m: bv64, b: bv64)
    requires m & b == 0
    ensures (x | m) & b == x & b
  {
  }

  /** Clearing the bits of m leaves a bit b outside m as it was. */
  lemma AndNotKeepsBit(x: bv64, m: bv64, b: bv64)
    requires m & b == 0
    ensures (x & !m) & b == x & b
  {
  }

  /** A 32-bit value with 32-bit mask bits set stays a 32-bit value. */
  lemma Low32Or(x: bv64, m: bv64)
    requires m >> 32 == 0
    ensures Low32(Low32(x) | m) == Low32(x) | m
  {
  }

  /** A 32-bit value with bits cleared stays a 32-bit value. */
  lemma Low32AndNot(x: bv64, m: bv64)
    ensures Low32(Low32(x) & !m) == Low32(x) & !m
  {
  }

  /** Replacing the bits under mask m by v: the field reads v. */
  lemma FieldInsert(x: bv64, m: bv64, v: bv64)
    requires v & !m == 0
    ensures ((x & !m) | v) & m == v
  {
  }

  /** Replacing the bits under mask m: the bits outside m are kept. */
  lemma FieldInsertOthers(x: bv64, m: bv64, v: bv64)
    requires v & !m == 0
    ensures ((x & !m) | v) & !m == x & !m
  {
  }

  /** Merging x's bits under m with y's bits elsewhere: the bits outside m are y's. */
  lemma MergeLow(x: bv64, y: bv64, m: bv64)
    ensures ((x & m) | (y & !m)) & !m == y & !m
  {
  }

  /** Merging x's bits under m with y's bits elsewhere: the bits under m are x's. */
  lemma MergeHigh(x: bv64, y: bv64, m: bv64)
    ensures ((x & m) | (y & !m)) & m == x & m
  {
  }

  /** A merge under m keeps y's bits on any mask b disjoint from m. */
  lemma MergeKeepsBits(x: bv64, y: bv64, m: bv64, b: bv64)
    requires b & m == 0
    ensures ((x & m) | (y & !m)) & b == y & b
  {
  }
}
