/**
 * The boot layout of include/asm/setup.h: where the VMM, the guest kernel
 * and the guest firmware live, and `struct guest_params`, the packed
 * header the VMM fills in and copies to the start of the guest firmware.
 */
module Setup {
  import opened Machine
  import opened E820Map

  const VMM_START: nat := 0x1000_0000
  const KERNEL_START: nat := 0x0010_0000
  const FIRMWARE_START: nat := 0x0000_1000

  /** `__ENTRY_OFFSET`: addresses shared by user and kernel are mapped this far up. */
  const ENTRY_OFFSET: nat := 0xffff_8000_0000_0000

  const CMDLINE_SIZE: nat := 1024
  const E820_MAX_ENTRIES_GUEST: nat := 128

  /** `sizeof(struct e820_entry)`, packed: 8 + 8 + 4 bytes. */
  const E820_ENTRY_BYTES: nat := 20

  /** `sizeof(struct guest_params)`, packed. */
  const GUEST_PARAMS_SIZE: nat := 8 + 4 * 8 + CMDLINE_SIZE + 4 + E820_MAX_ENTRIES_GUEST * E820_ENTRY_BYTES

  /** The bytes of a packed `struct e820_entry`. */
  function EncodeEntry(e: Entry): (r: seq<u8>)
    ensures |r| == E820_ENTRY_BYTES
  {
    ToLittleEndian(e.addr, 8) + ToLittleEndian(e.size, 8) + ToLittleEndian(e.kind, 4)
  }

  /** The bytes of an array of packed entries, in order. */
  function EncodeEntries(es: seq<Entry>): (r: seq<u8>)
    ensures |r| == E820_ENTRY_BYTES * |es|
  {
    if es == [] then [] else EncodeEntry(es[0]) + EncodeEntries(es[1..])
  }

  /** The bytes of a host memory region, as the unsigned values a copy of them stores. */
  function Octets(s: seq<bv8>): (r: seq<u8>)
    ensures |r| == |s|
    ensures forall i :: 0 <= i < |s| ==> r[i] == s[i] as int
  {
    if s == [] then [] else [s[0] as int] + Octets(s[1..])
  }

  /**
   * `struct guest_params`.  The `cmdline` buffer is the region
   * [cmdlineAt, cmdlineAt + CMDLINE_SIZE) of the host memory mem, where
   * the string functions of lib/string.c reach it together with the
   * strings they copy from.
   */
  class GuestParams {
    const magic: array<u8>
    var kernelStart: u64
    var kernelEnd: u64
    var initrdStart: u64
    var initrdEnd: u64
    const mem: array<bv8>
    const cmdlineAt: nat
    var e820Entries: u32
    const e820Table: array<Entry>

    ghost predicate Valid()
      reads this
    {
      magic.Length == 8 && cmdlineAt + CMDLINE_SIZE <= mem.Length && e820Table.Length == E820_MAX_ENTRIES_GUEST
    }

    /** The bytes of the `cmdline` buffer. */
    function Cmdline(): (r: seq<bv8>)
      reads this, mem
      requires Valid()
      ensures |r| == CMDLINE_SIZE
    {
      mem[cmdlineAt..cmdlineAt + CMDLINE_SIZE]
    }

    /** The zero-initialised static object, its `cmdline` buffer at offset at of host memory. */
    constructor (hostMem: array<bv8>, at: nat)
      requires at + CMDLINE_SIZE <= hostMem.Length
      ensures Valid() && fresh(magic) && fresh(e820Table) && mem == hostMem && cmdlineAt == at
      ensures forall i :: 0 <= i < magic.Length ==> magic[i] == 0
      ensures kernelStart == 0 && kernelEnd == 0 && initrdStart == 0 && initrdEnd == 0 && e820Entries == 0
    {
      magic := new u8[8](_ => 0);
      mem, cmdlineAt := hostMem, at;
      e820Table := new Entry[E820_MAX_ENTRIES_GUEST](_ => Entry(0, 0, 0));
      kernelStart, kernelEnd, initrdStart, initrdEnd, e820Entries := 0, 0, 0, 0, 0;
    }

    /** The object as `memcpy(..., &guest_params, sizeof(struct guest_params))` copies it. */
    function Bytes(): (r: seq<u8>)
      reads this, magic, mem, e820Table
      requires Valid()
      ensures |r| == GUEST_PARAMS_SIZE
      ensures r[..8] == magic[..]
    {
      magic[..] + ToLittleEndian(kernelStart, 8) + ToLittleEndian(kernelEnd, 8) + ToLittleEndian(initrdStart, 8)
        + ToLittleEndian(initrdEnd, 8) + Octets(Cmdline()) + ToLittleEndian(e820Entries, 4) + EncodeEntries(e820Table[..])
    }
  }
}
