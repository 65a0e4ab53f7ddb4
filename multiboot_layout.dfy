/**
 * The Multiboot boot-information memory map shared by the firmware, which
 * writes it, and the hypervisor, which walks it (section 3.3
 * of version 0.6.96 of the Multiboot standard): packed records of a 32-bit `size`, a 64-bit
 * `addr`, a 64-bit `len` and a 32-bit `type`, little-endian, where `size`
 * counts the bytes of the record after the `size` field itself.
 */
module MultibootLayout {
  import opened Machine

  /** The `flags` bits of `struct multiboot_info` (section 3.3): which fields are valid. */
  const MULTIBOOT_INFO_MEMORY: u32 := 0x1
  const MULTIBOOT_INFO_CMDLINE: u32 := 0x4
  const MULTIBOOT_INFO_MODS: u32 := 0x8
  const MULTIBOOT_INFO_MEM_MAP: u32 := 0x40

  /**
   * The fields of `struct multiboot_info` that the firmware writes and the
   * VMM reads; addresses are 32-bit physical addresses.
   */
  datatype Info = Info(flags: u32, memLower: u32, memUpper: u32, cmdline: u32,
                       modsCount: u32, modsAddr: u32, mmapLength: u32, mmapAddr: u32)

  /** `struct multiboot_mod_list`: a module's physical range and the physical address of its string. */
  datatype ModEntry = ModEntry(modStart: u32, modEnd: u32, cmdline: u32)

  /** `flags & MULTIBOOT_INFO_MEM_MAP` is non-zero. */
  predicate HasMemMap(flags: u32)
  {
    (flags / MULTIBOOT_INFO_MEM_MAP) % 2 == 1
  }

  /** `struct multiboot_mmap_entry`, packed: 4 + 8 + 8 + 4 bytes. */
  datatype MmapEntry = MmapEntry(size: u32, addr: u64, len: u64, kind: u32)

  const MMAP_ENTRY_BYTES: nat := 24
  /** `sizeof(mmap[i]) - sizeof(mmap[i].size)`: the `size` value the firmware stores. */
  const MMAP_ENTRY_SIZE: u32 := 20

  /** The 24 bytes of a record in memory. */
  function EncodeMmapEntry(m: MmapEntry): (r: seq<u8>)
    ensures |r| == MMAP_ENTRY_BYTES
  {
    ToLittleEndian(m.size, 4) + ToLittleEndian(m.addr, 8) + ToLittleEndian(m.len, 8) + ToLittleEndian(m.kind, 4)
  }

  /** The record whose first byte is b[0]. */
  function DecodeMmapEntry(b: seq<u8>): MmapEntry
    requires |b| >= MMAP_ENTRY_BYTES
  {
    Pow256Widths();
    MmapEntry(LittleEndian(b[0..4]), LittleEndian(b[4..12]), LittleEndian(b[12..20]), LittleEndian(b[20..24]))
  }

  lemma MmapEntryRoundTrip(m: MmapEntry, rest: seq<u8>)
    ensures DecodeMmapEntry(EncodeMmapEntry(m) + rest) == m
  {
    var b := EncodeMmapEntry(m) + rest;
    assert b[0..4] == ToLittleEndian(m.size, 4);
    assert b[4..12] == ToLittleEndian(m.addr, 8);
    assert b[12..20] == ToLittleEndian(m.len, 8);
    assert b[20..24] == ToLittleEndian(m.kind, 4);
    Pow256Widths();
    LittleEndianRoundTrip(m.size, 4);
    LittleEndianRoundTrip(m.addr, 8);
    LittleEndianRoundTrip(m.len, 8);
    LittleEndianRoundTrip(m.kind, 4);
  }

  /**
   * The walk of `e820_range_add_multiboot` from byte offset i stays inside
   * mem: every record it visits below len lies in mem, the next one
   * starting `size + 4` bytes further on.
   */
  predicate Walkable(mem: seq<u8>, i: nat, len: nat)
    decreases len - i
  {
    i >= len ||
    (i + MMAP_ENTRY_BYTES <= |mem| && Walkable(mem, i + DecodeMmapEntry(mem[i..]).size + 4, len))
  }

  /** The records the walk visits from offset i, in order. */
  function Records(mem: seq<u8>, i: nat, len: nat): (r: seq<MmapEntry>)
    requires Walkable(mem, i, len)
    decreases len - i
  {
    if i >= len then []
    else
      var m := DecodeMmapEntry(mem[i..]);
      [m] + Records(mem, i + m.size + 4, len)
  }

  /** What the firmware writes for a list of (addr, len, type) records: consecutive 24-byte records with size 20. */
  function EncodeMmap(ms: seq<MmapEntry>): (r: seq<u8>)
    ensures |r| == MMAP_ENTRY_BYTES * |ms|
  {
    if |ms| == 0 then [] else EncodeMmapEntry(ms[0]) + EncodeMmap(ms[1..])
  }

  lemma {:induction false} EncodeMmapSuffix(ms: seq<MmapEntry>, k: nat)
    requires k <= |ms|
    ensures EncodeMmap(ms)[MMAP_ENTRY_BYTES * k..] == EncodeMmap(ms[k..])
  {
    if k > 0 {
      EncodeMmapSuffix(ms[1..], k - 1);
      assert ms[1..][k - 1..] == ms[k..];
      assert EncodeMmap(ms)[MMAP_ENTRY_BYTES * k..] == EncodeMmap(ms[1..])[MMAP_ENTRY_BYTES * (k - 1)..];
    } else {
      assert ms[0..] == ms;
    }
  }

  /** Every record has the size field the firmware stores. */
  ghost predicate FirmwareSized(ms: seq<MmapEntry>)
  {
    forall j :: 0 <= j < |ms| ==> ms[j].size == MMAP_ENTRY_SIZE
  }

  /**
   * The walker's stride of size + 4 visits exactly the records the firmware
   * wrote, when mmap_length is their total size.
   */
  lemma {:induction false} EncodedWalk(ms: seq<MmapEntry>, k: nat)
    requires k <= |ms| && FirmwareSized(ms)
    ensures Walkable(EncodeMmap(ms), MMAP_ENTRY_BYTES * k, MMAP_ENTRY_BYTES * |ms|)
    ensures Records(EncodeMmap(ms), MMAP_ENTRY_BYTES * k, MMAP_ENTRY_BYTES * |ms|) == ms[k..]
    decreases |ms| - k
  {
    var mem := EncodeMmap(ms);
    var i := MMAP_ENTRY_BYTES * k;
    if k < |ms| {
      EncodeMmapSuffix(ms, k);
      assert mem[i..] == EncodeMmapEntry(ms[k]) + EncodeMmap(ms[k + 1..]) by {
        assert ms[k..][1..] == ms[k + 1..];
      }
      MmapEntryRoundTrip(ms[k], EncodeMmap(ms[k + 1..]));
      assert DecodeMmapEntry(mem[i..]) == ms[k];
      EncodedWalk(ms, k + 1);
      assert ms[k..] == [ms[k]] + ms[k + 1..];
    }
  }
}
