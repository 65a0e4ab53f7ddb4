/**
 * The shared vocabulary of the ACPI table code: physical memory as a byte
 * string indexed by physical address (the kernel's `__va` mapping is the
 * identity here), little-endian field loads, the 4-character table names
 * and the ACPICA exception codes.
 */
module AcTypes {
  import opened Machine

  /** Byte a of physical memory; addresses beyond the modelled memory read as 0. */
  function Peek(mem: seq<u8>, a: nat): u8
  {
    if a < |mem| then mem[a] else 0
  }

  /** The n bytes of physical memory from address a. */
  function Bytes(mem: seq<u8>, a: nat, n: nat): (r: seq<u8>)
    ensures |r| == n
    ensures forall i :: 0 <= i < n ==> r[i] == Peek(mem, a + i)
  {
    if n == 0 then [] else Bytes(mem, a, n - 1) + [Peek(mem, a + n - 1)]
  }

  /** A `uint16_t` field at address a, stored least significant byte first. */
  function Le16(mem: seq<u8>, a: nat): u16
  {
    Peek(mem, a) as int + 0x100 * Peek(mem, a + 1) as int
  }

  /** A `uint32_t` field at address a. */
  function Le32(mem: seq<u8>, a: nat): u32
  {
    Le16(mem, a) as int + 0x1_0000 * Le16(mem, a + 2) as int
  }

  /** A `uint64_t` field at address a. */
  function Le64(mem: seq<u8>, a: nat): u64
  {
    Le32(mem, a) as int + 0x1_0000_0000 * Le32(mem, a + 4) as int
  }

  /** Reading n + 1 bytes from a: the byte at a, then 256 times the n bytes from a + 1. */
  lemma LittleEndianStep(mem: seq<u8>, a: nat, n: nat)
    ensures LittleEndian(Bytes(mem, a, n + 1)) == Peek(mem, a) as int + 256 * LittleEndian(Bytes(mem, a + 1, n))
  {
    assert Bytes(mem, a, n + 1)[1..] == Bytes(mem, a + 1, n);
  }

  /** The 16-bit load reads the 2 bytes at a as a little-endian number. */
  lemma Le16IsLittleEndian(mem: seq<u8>, a: nat)
    ensures Le16(mem, a) == LittleEndian(Bytes(mem, a, 2))
  {
    LittleEndianStep(mem, a + 1, 0);
    LittleEndianStep(mem, a, 1);
  }

  /** The 32-bit load reads the 4 bytes at a as a little-endian number. */
  lemma Le32IsLittleEndian(mem: seq<u8>, a: nat)
    ensures Le32(mem, a) == LittleEndian(Bytes(mem, a, 4))
  {
    LittleEndianStep(mem, a + 3, 0);
    LittleEndianStep(mem, a + 2, 1);
    LittleEndianStep(mem, a + 1, 2);
    LittleEndianStep(mem, a, 3);
  }

  /** The 64-bit load reads the 8 bytes at a as a little-endian number. */
  lemma Le64IsLittleEndian(mem: seq<u8>, a: nat)
    ensures Le64(mem, a) == LittleEndian(Bytes(mem, a, 8))
  {
    Le32IsLittleEndian(mem, a);
    Le32IsLittleEndian(mem, a + 4);
    LittleEndianStep(mem, a + 3, 4);
    LittleEndianStep(mem, a + 2, 5);
    LittleEndianStep(mem, a + 1, 6);
    LittleEndianStep(mem, a, 7);
    LittleEndianStep(mem, a + 3, 0);
    LittleEndianStep(mem, a + 2, 1);
    LittleEndianStep(mem, a + 1, 2);
    LittleEndianStep(mem, a, 3);
  }

  /** The ACPICA exceptions the table code returns. */
  datatype Status = AE_OK | AE_NOT_FOUND | AE_BAD_SIGNATURE | AE_BAD_CHECKSUM | AE_INVALID_TABLE_LENGTH

  /** The `acpi_status` value of each exception: environmental codes from 0, table codes from 0x2000. */
  function Code(s: Status): u32
  {
    match s
    case AE_OK => 0
    case AE_NOT_FOUND => 0x0005
    case AE_BAD_SIGNATURE => 0x2001
    case AE_BAD_CHECKSUM => 0x2003
    case AE_INVALID_TABLE_LENGTH => 0x2005
  }

  // Table signatures, as ASCII bytes.
  const SIG_FACS: seq<u8> := [0x46, 0x41, 0x43, 0x53]                    // "FACS"
  const SIG_S3PT: seq<u8> := [0x53, 0x33, 0x50, 0x54]                    // "S3PT"
  const SIG_MADT: seq<u8> := [0x41, 0x50, 0x49, 0x43]                    // "APIC"
  const SIG_RSDP: seq<u8> := [0x52, 0x53, 0x44, 0x20, 0x50, 0x54, 0x52, 0x20]  // "RSD PTR "

  /** Character i of a C string whose characters are s; its terminating NUL and beyond read as 0. */
  function CharAt(s: seq<u8>, i: nat): u8
  {
    if i < |s| then s[i] else 0
  }

  /** `strncmp(a, b, n) == 0` from position i on: equal up to n characters or up to a shared NUL. */
  predicate StrNEqualFrom(a: seq<u8>, b: seq<u8>, i: nat, n: nat)
    decreases n - i
  {
    i >= n || (CharAt(a, i) == CharAt(b, i) && (CharAt(a, i) == 0 || StrNEqualFrom(a, b, i + 1, n)))
  }

  /** `ACPI_COMPARE_NAME(a, b)`: `strncmp` of the two names over ACPI_NAME_SIZE (4) characters is 0. */
  predicate CompareName(a: seq<u8>, b: seq<u8>)
  {
    StrNEqualFrom(a, b, 0, 4)
  }

  /** Against a name of 4 non-NUL characters, ACPI_COMPARE_NAME is plain equality of the first 4 bytes. */
  lemma CompareNameLiteral(a: seq<u8>, b: seq<u8>)
    requires |a| == 4 && |b| == 4 && 0 !in b
    ensures CompareName(a, b) <==> a == b
  {
    assert b[0] != 0 && b[1] != 0 && b[2] != 0 && b[3] != 0;
    CompareNameSelf(b);
    if CompareName(a, b) {
      assert StrNEqualFrom(a, b, 1, 4) && StrNEqualFrom(a, b, 2, 4) && StrNEqualFrom(a, b, 3, 4);
      assert a == [a[0], a[1], a[2], a[3]] && b == [b[0], b[1], b[2], b[3]];
    }
  }

  /** Every name matches itself. */
  lemma CompareNameSelf(b: seq<u8>)
    ensures CompareName(b, b)
  {
    assert StrNEqualFrom(b, b, 3, 4);
    assert StrNEqualFrom(b, b, 2, 4);
    assert StrNEqualFrom(b, b, 1, 4);
  }
}
