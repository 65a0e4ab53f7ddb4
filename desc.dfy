/**
 * Segment and gate descriptors, include/asm/desc.h: the field packing of
 * `GDT_ENTRY_INIT`, the system-segment descriptor `set_tssldt_descriptor`
 * builds for the TSS, and the table writes `write_gdt_entry` and
 * `write_idt_entry`.
 *
 * The bit fields of `struct segment_desc` and `struct ldttss_desc` are
 * naturals bounded by their widths.  The GDT is the byte array the
 * descriptors are copied into (slot j is bytes [8j, 8j + 8)), laid out as
 * the processor reads them (Intel SDM Vol. 3, section 3.4.5 "Segment
 * Descriptors" and section 7.2.3 "TSS Descriptor in 64-bit mode").
 */
module Desc {
  import opened Machine
  import StringLib

  const GATE_INTERRUPT: nat := 0xe
  const GATE_TRAP: nat := 0xf
  const DESC_TSS: nat := 0x9
  const DESC_LDT: nat := 0x2

  /** `sizeof(struct segment_desc)` and `sizeof(struct ldttss_desc)`. */
  const SEGMENT_DESC_BYTES: nat := 8
  const LDTTSS_DESC_BYTES: nat := 16

  /** `struct segment_desc`: limit0, base0, then base1:8 type:4 s:1 dpl:2 p:1, then limit1:4 avl:1 l:1 d:1 g:1 base2:8. */
  datatype SegmentDesc = SegmentDesc(
    limit0: nat, base0: nat, base1: nat, sType: nat, s: nat, dpl: nat, p: nat,
    limit1: nat, avl: nat, l: nat, d: nat, g: nat, base2: nat)

  /** Every field of a segment descriptor fits its bit width. */
  predicate SegmentFits(x: SegmentDesc)
  {
    && x.limit0 < 0x1_0000 && x.base0 < 0x1_0000 && x.base1 < 0x100 && x.sType < 0x10 && x.s < 2
    && x.dpl < 4 && x.p < 2 && x.limit1 < 0x10 && x.avl < 2 && x.l < 2 && x.d < 2 && x.g < 2
    && x.base2 < 0x100
  }

  /** `GDT_ENTRY_INIT(flags, base, limit)`. */
  function GdtEntryInit(flags: nat, base: nat, limit: nat): (r: SegmentDesc)
    ensures SegmentFits(r)
  {
    SegmentDesc(
      limit % 0x1_0000, base % 0x1_0000, (base / 0x1_0000) % 0x100,
      flags % 0x10, (flags / 0x10) % 2, (flags / 0x20) % 4, (flags / 0x80) % 2,
      (limit / 0x1_0000) % 0x10,
      (flags / 0x1000) % 2, (flags / 0x2000) % 2, (flags / 0x4000) % 2, (flags / 0x8000) % 2,
      (base / 0x100_0000) % 0x100)
  }

  /** The base, limit and flags a segment descriptor stands for. */
  function SegmentBase(x: SegmentDesc): nat
  {
    x.base0 + 0x1_0000 * x.base1 + 0x100_0000 * x.base2
  }

  function SegmentLimit(x: SegmentDesc): nat
  {
    x.limit0 + 0x1_0000 * x.limit1
  }

  function SegmentFlags(x: SegmentDesc): nat
  {
    x.sType + 0x10 * x.s + 0x20 * x.dpl + 0x80 * x.p
    + 0x1000 * x.avl + 0x2000 * x.l + 0x4000 * x.d + 0x8000 * x.g
  }

  /** `flags & 0xf0ff`: bits 0-7 and 12-15 of flags. */
  function FlagsKept(flags: nat): nat
  {
    flags % 0x100 + 0x1000 * ((flags / 0x1000) % 0x10)
  }

  /** Four one-bit fields read back as the four-bit group. */
  lemma FourBits(v: nat)
    ensures v % 2 + 2 * ((v / 2) % 2) + 4 * ((v / 4) % 2) + 8 * ((v / 8) % 2) == v % 0x10
  {
    ModSplit(v, 2, 2);
    ModSplit(v, 4, 2);
    ModSplit(v, 8, 2);
    ModSplit(v / 2, 2, 2);
    ModSplit(v / 4, 2, 2);
  }

  /**
   * Reassembling a `GDT_ENTRY_INIT` result gives base mod 2^32, limit mod
   * 2^20 and flags & 0xf0ff: nothing else of the arguments is kept.
   */
  lemma GdtEntryRoundTrip(flags: nat, base: nat, limit: nat)
    ensures SegmentBase(GdtEntryInit(flags, base, limit)) == base % 0x1_0000_0000
    ensures SegmentLimit(GdtEntryInit(flags, base, limit)) == limit % 0x10_0000
    ensures SegmentFlags(GdtEntryInit(flags, base, limit)) == FlagsKept(flags)
  {
    ModSplit(base, 0x1_0000, 0x1_0000);
    ModSplit(base / 0x1_0000, 0x100, 0x100);
    ModSplit(base, 0x1_0000, 0x100);
    ModSplit(limit, 0x1_0000, 0x10);
    // the low flag byte: type, then s, dpl, p
    ModSplit(flags, 0x10, 0x10);
    ModSplit(flags / 0x10, 2, 8);
    ModSplit(flags / 0x10 / 2, 4, 2);
    ModSplit(flags, 0x10, 2);
    ModSplit(flags, 0x20, 4);
    ModSplit(flags, 0x10, 8);
    ModSplit(flags, 0x80, 2);
    // the high nibble: avl, l, d, g
    FourBits(flags / 0x1000);
    ModSplit(flags, 0x1000, 2);
    ModSplit(flags, 0x1000, 4);
    ModSplit(flags, 0x1000, 8);
  }

  /** The eight bytes of a segment descriptor, as it sits in the GDT. */
  function EncodeSegment(x: SegmentDesc): (r: seq<u8>)
    requires SegmentFits(x)
    ensures |r| == SEGMENT_DESC_BYTES
  {
    [x.limit0 % 0x100, x.limit0 / 0x100, x.base0 % 0x100, x.base0 / 0x100, x.base1,
     x.sType + 0x10 * x.s + 0x20 * x.dpl + 0x80 * x.p,
     x.limit1 + 0x10 * x.avl + 0x20 * x.l + 0x40 * x.d + 0x80 * x.g,
     x.base2]
  }

  /** The fields of a segment descriptor read from its eight bytes. */
  function DecodeSegment(b: seq<u8>): (r: SegmentDesc)
    requires |b| == SEGMENT_DESC_BYTES
    ensures SegmentFits(r)
  {
    SegmentDesc(
      b[0] as nat + 0x100 * b[1] as nat, b[2] as nat + 0x100 * b[3] as nat, b[4],
      b[5] % 0x10, (b[5] / 0x10) % 2, (b[5] / 0x20) % 4, b[5] / 0x80,
      b[6] % 0x10, (b[6] / 0x10) % 2, (b[6] / 0x20) % 2, (b[6] / 0x40) % 2, b[6] / 0x80,
      b[7])
  }

  /** A byte packed from fields of widths 4, 1, 2, 1 unpacks to them. */
  lemma UnpackAccessByte(t: nat, s: nat, dpl: nat, p: nat)
    requires t < 0x10 && s < 2 && dpl < 4 && p < 2
    ensures var v := t + 0x10 * s + 0x20 * dpl + 0x80 * p;
      v % 0x10 == t && (v / 0x10) % 2 == s && (v / 0x20) % 4 == dpl && v / 0x80 == p
  {
  }

  /** A byte packed from fields of widths 4, 1, 1, 1, 1 unpacks to them. */
  lemma UnpackFlagsByte(lim: nat, avl: nat, l: nat, d: nat, g: nat)
    requires lim < 0x10 && avl < 2 && l < 2 && d < 2 && g < 2
    ensures var v := lim + 0x10 * avl + 0x20 * l + 0x40 * d + 0x80 * g;
      v % 0x10 == lim && (v / 0x10) % 2 == avl && (v / 0x20) % 2 == l && (v / 0x40) % 2 == d && v / 0x80 == g
  {
  }

  lemma SegmentRoundTrip(x: SegmentDesc)
    requires SegmentFits(x)
    ensures DecodeSegment(EncodeSegment(x)) == x
  {
    UnpackAccessByte(x.sType, x.s, x.dpl, x.p);
    UnpackFlagsByte(x.limit1, x.avl, x.l, x.d, x.g);
  }

  /**
   * `struct ldttss_desc`: limit0, base0, then base1:8 type:5 dpl:2 p:1,
   * then limit1:4 zero0:3 g:1 base2:8, then base3 and zero1.
   */
  datatype LdtTssDesc = LdtTssDesc(
    limit0: nat, base0: nat, base1: nat, tType: nat, dpl: nat, p: nat,
    limit1: nat, zero0: nat, g: nat, base2: nat, base3: nat, zero1: nat)

  predicate LdtTssFits(x: LdtTssDesc)
  {
    && x.limit0 < 0x1_0000 && x.base0 < 0x1_0000 && x.base1 < 0x100 && x.tType < 0x20 && x.dpl < 4
    && x.p < 2 && x.limit1 < 0x10 && x.zero0 < 8 && x.g < 2 && x.base2 < 0x100
    && x.base3 < 0x1_0000_0000 && x.zero1 < 0x1_0000_0000
  }

  /**
   * `set_tssldt_descriptor(desc, addr, type, size)`: the descriptor is
   * zeroed and then given its base, limit, type and p = 1, so it does not
   * depend on what desc held before.
   */
  function SetTssLdtDescriptor(addr: u64, dType: nat, size: nat): (r: LdtTssDesc)
    ensures LdtTssFits(r)
  {
    LdtTssDesc(
      size % 0x1_0000, addr % 0x1_0000, (addr / 0x1_0000) % 0x100, dType % 0x20, 0, 1,
      (size / 0x1_0000) % 0x10, 0, 0, (addr / 0x100_0000) % 0x100, addr / 0x1_0000_0000, 0)
  }

  /** `base0 | base1 << 16 | base2 << 24 | base3 << 32`, as `get_tr_base` reads it back. */
  function TssBase(x: LdtTssDesc): nat
  {
    x.base0 + 0x1_0000 * x.base1 + 0x100_0000 * x.base2 + 0x1_0000_0000 * x.base3
  }

  function TssLimit(x: LdtTssDesc): nat
  {
    x.limit0 + 0x1_0000 * x.limit1
  }

  /**
   * The descriptor `set_tssldt_descriptor` builds gives back the whole
   * 64-bit address, the limit mod 2^20 and the type mod 2^5; it is present
   * and every other field is zero.
   */
  lemma TssRoundTrip(addr: u64, dType: nat, size: nat)
    ensures var x := SetTssLdtDescriptor(addr, dType, size);
      && TssBase(x) == addr && TssLimit(x) == size % 0x10_0000
      && x.tType == dType % 0x20 && x.p == 1
      && x.dpl == 0 && x.zero0 == 0 && x.g == 0 && x.zero1 == 0
  {
    ModSplit(addr, 0x1_0000, 0x1_0000);
    ModSplit(addr / 0x1_0000, 0x100, 0x100);
    ModSplit(addr, 0x1_0000, 0x100);
    ModSplit(addr, 0x100_0000, 0x100);
    ModSplit(size, 0x1_0000, 0x10);
    assert addr % 0x1_0000_0000 + 0x1_0000_0000 * (addr / 0x1_0000_0000) == addr;
  }

  /** The sixteen bytes of a TSS or LDT descriptor, as it sits in two GDT slots. */
  function EncodeLdtTss(x: LdtTssDesc): (r: seq<u8>)
    requires LdtTssFits(x)
    ensures |r| == LDTTSS_DESC_BYTES
  {
    [x.limit0 % 0x100, x.limit0 / 0x100, x.base0 % 0x100, x.base0 / 0x100, x.base1,
     x.tType + 0x20 * x.dpl + 0x80 * x.p,
     x.limit1 + 0x10 * x.zero0 + 0x80 * x.g,
     x.base2]
    + ToLittleEndian(x.base3, 4) + ToLittleEndian(x.zero1, 4)
  }

  function DecodeLdtTss(b: seq<u8>): (r: LdtTssDesc)
    requires |b| == LDTTSS_DESC_BYTES
  {
    LdtTssDesc(
      b[0] as nat + 0x100 * b[1] as nat, b[2] as nat + 0x100 * b[3] as nat, b[4],
      b[5] % 0x20, (b[5] / 0x20) % 4, b[5] / 0x80,
      b[6] % 0x10, (b[6] / 0x10) % 8, b[6] / 0x80,
      b[7], LittleEndian(b[8..12]), LittleEndian(b[12..16]))
  }

  /** A byte packed from fields of widths 5, 2, 1 unpacks to them. */
  lemma UnpackTypeByte(t: nat, dpl: nat, p: nat)
    requires t < 0x20 && dpl < 4 && p < 2
    ensures var v := t + 0x20 * dpl + 0x80 * p;
      v % 0x20 == t && (v / 0x20) % 4 == dpl && v / 0x80 == p
  {
  }

  /** A byte packed from fields of widths 4, 3, 1 unpacks to them. */
  lemma UnpackLimitByte(lim: nat, z: nat, g: nat)
    requires lim < 0x10 && z < 8 && g < 2
    ensures var v := lim + 0x10 * z + 0x80 * g;
      v % 0x10 == lim && (v / 0x10) % 8 == z && v / 0x80 == g
  {
  }

  lemma LdtTssRoundTrip(x: LdtTssDesc)
    requires LdtTssFits(x)
    ensures DecodeLdtTss(EncodeLdtTss(x)) == x
  {
    var b := EncodeLdtTss(x);
    UnpackTypeByte(x.tType, x.dpl, x.p);
    UnpackLimitByte(x.limit1, x.zero0, x.g);
    Pow256Widths();
    LittleEndianRoundTrip(x.base3, 4);
    LittleEndianRoundTrip(x.zero1, 4);
    assert b[8..12] == ToLittleEndian(x.base3, 4);
    assert b[12..16] == ToLittleEndian(x.zero1, 4);
  }

  /** The number of bytes `write_gdt_entry` copies for a descriptor type: two slots for a TSS or LDT. */
  function GdtEntrySize(dType: nat): (r: nat)
    ensures r == if dType == DESC_TSS || dType == DESC_LDT then 2 * SEGMENT_DESC_BYTES else SEGMENT_DESC_BYTES
  {
    if dType == DESC_TSS || dType == DESC_LDT then LDTTSS_DESC_BYTES else SEGMENT_DESC_BYTES
  }

  /** Slot j of the GDT. */
  function Slot(gdt: seq<u8>, j: nat): seq<u8>
    requires SEGMENT_DESC_BYTES * (j + 1) <= |gdt|
  {
    gdt[SEGMENT_DESC_BYTES * j..SEGMENT_DESC_BYTES * (j + 1)]
  }

  /** `write_gdt_entry(gdt, entry, desc, type)`: memcpy of the type's size to slot entry. */
  method WriteGdtEntry(gdt: array<u8>, entry: nat, desc: seq<u8>, dType: nat)
    requires GdtEntrySize(dType) <= |desc|
    requires SEGMENT_DESC_BYTES * entry + GdtEntrySize(dType) <= gdt.Length
    modifies gdt
    ensures gdt[..] == StringLib.Overwrite(old(gdt[..]), SEGMENT_DESC_BYTES * entry, desc[..GdtEntrySize(dType)])
  {
    var size := GdtEntrySize(dType);
    var at := SEGMENT_DESC_BYTES * entry;
    ghost var m := gdt[..];
    for i := 0 to size
      invariant forall k :: 0 <= k < gdt.Length && !(at <= k < at + i) ==> gdt[k] == m[k]
      invariant forall k :: at <= k < at + i ==> gdt[k] == desc[k - at]
    {
      gdt[at + i] := desc[i];
    }
    StringLib.OverwriteIntro(gdt[..], m, at, desc[..size]);
  }

  /**
   * After `write_gdt_entry`, slot entry (and slot entry + 1 for a TSS or
   * LDT) holds the descriptor's bytes and every other slot is unchanged.
   */
  lemma WriteGdtSlots(gdt: seq<u8>, entry: nat, desc: seq<u8>, dType: nat, j: nat)
    requires GdtEntrySize(dType) <= |desc|
    requires SEGMENT_DESC_BYTES * entry + GdtEntrySize(dType) <= |gdt|
    requires SEGMENT_DESC_BYTES * (j + 1) <= |gdt|
    ensures var g := StringLib.Overwrite(gdt, SEGMENT_DESC_BYTES * entry, desc[..GdtEntrySize(dType)]);
      var covered := entry <= j < entry + GdtEntrySize(dType) / SEGMENT_DESC_BYTES;
      && (covered ==> Slot(g, j) == desc[SEGMENT_DESC_BYTES * (j - entry)..SEGMENT_DESC_BYTES * (j - entry + 1)])
      && (!covered ==> Slot(g, j) == Slot(gdt, j))
  {
    var data := desc[..GdtEntrySize(dType)];
    var g := StringLib.Overwrite(gdt, SEGMENT_DESC_BYTES * entry, data);
    if entry <= j < entry + GdtEntrySize(dType) / SEGMENT_DESC_BYTES {
      forall i | 0 <= i < SEGMENT_DESC_BYTES
        ensures Slot(g, j)[i] == desc[SEGMENT_DESC_BYTES * (j - entry)..SEGMENT_DESC_BYTES * (j - entry + 1)][i]
      {
        StringLib.OverwriteAt(gdt, SEGMENT_DESC_BYTES * entry, data, SEGMENT_DESC_BYTES * j + i);
      }
    } else {
      forall i | 0 <= i < SEGMENT_DESC_BYTES
        ensures Slot(g, j)[i] == Slot(gdt, j)[i]
      {
        StringLib.OverwriteAt(gdt, SEGMENT_DESC_BYTES * entry, data, SEGMENT_DESC_BYTES * j + i);
      }
    }
  }

  /** `struct idt_bits`: ist:3 zero:5 type:5 dpl:2 p:1. */
  datatype IdtBits = IdtBits(ist: nat, zero: nat, gType: nat, dpl: nat, p: nat)

  /**
   * `struct gate_desc`: a 64-bit mode interrupt gate, its handler offset
   * split 16/16/32 around the segment selector and the bits.
   */
  datatype GateDesc = GateDesc(
    offsetLow: nat, segment: nat, bits: IdtBits, offsetMiddle: nat, offsetHigh: nat, reserved: nat)

  /** The all-zero gate the static IDT starts out with. */
  const EMPTY_GATE := GateDesc(0, 0, IdtBits(0, 0, 0, 0, 0), 0, 0, 0)

  /** `write_idt_entry(idt, entry, gate)`: one gate is copied into slot entry. */
  method WriteIdtEntry(idt: array<GateDesc>, entry: nat, gate: GateDesc)
    requires entry < idt.Length
    modifies idt
    ensures idt[..] == old(idt[..])[entry := gate]
  {
    idt[entry] := gate;
  }
}
