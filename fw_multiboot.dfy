/**
 * firmware/multiboot.c: the guest firmware's Multiboot loader (sections
 * 3.1 and 3.3 of version 0.6.96 of the Multiboot standard).  It finds the Multiboot
 * header in the kernel image, loads the image (the a.out kludge, or an
 * ELF32/ELF64 image through firmware/elfload.h), and fills in the static
 * `multiboot_info`, `mod_list` and `mmap[]` that it hands to the kernel.
 *
 * Memory is one byte array indexed by physical address (`__va` and `__pa`
 * are the identity); the image lies in it at guest_params' kernel_start.
 * Where the firmware's statics and the "initrd" string sit in memory is
 * the linker's choice, so their physical addresses are parameters of the
 * firmware object.  `start_multiboot`, which does not return, is the
 * outcome: Some(entry) is the entry point it is called with, None an early
 * return.
 */
module FwMultiboot {
  import opened Machine
  import opened E820Map
  import opened MultibootLayout
  import opened Setup
  import E820Update
  import ElfLoad
  import StringLib
  import E820

  /** Section 3.1.1: the header's first word. */
  const MULTIBOOT_HEADER_MAGIC: nat := 0x1bad_b002
  /** Bit 16 of the header's flags: the load addresses of section 3.1.3 are valid. */
  const MULTIBOOT_AOUT_KLUDGE: nat := 0x1_0000
  /** The 32-bit words of `struct multiboot_header`: magic, flags, checksum, header_addr, load_addr, load_end_addr, bss_end_addr, entry_addr. */
  const MULTIBOOT_HEADER_BYTES: nat := 32

  /** `VMM_START - SZ_1M` in KiB: the upper memory the guest is told it has. */
  const MEM_UPPER: u32 := (VMM_START - 0x10_0000) / 0x400
  /** MULTIBOOT_INFO_MEMORY | MULTIBOOT_INFO_CMDLINE | MULTIBOOT_INFO_MODS | MULTIBOOT_INFO_MEM_MAP. */
  const INFO_FLAGS: u32 := 0x4d

  /** System V ABI, "ELF Identification": `ELFMAG`, `EI_CLASS`, `ELFCLASS32`, `ELFCLASS64`. */
  const EI_CLASS: nat := 4
  const ELFCLASS32: bv8 := 1
  const ELFCLASS64: bv8 := 2

  // ---------------------------------------------------------------------
  // find_multiboot_header

  /** The number of words `start < end` visits: those at offsets 0, 4, ... below window. */
  function WordsIn(window: nat): nat
  {
    (window + 3) / 4
  }

  /** Word j is in the window exactly when its offset is below window. */
  lemma WordsInWindow(window: nat, j: nat)
    ensures 4 * j < window <==> j < WordsIn(window)
  {
  }

  /** The little-endian 32-bit word at address a. */
  function Word32(m: seq<bv8>, a: nat): nat
    requires a + 4 <= |m|
  {
    ElfLoad.Field(m, a, 4)
  }

  lemma Word32Bound(m: seq<bv8>, a: nat)
    requires a + 4 <= |m|
    ensures Word32(m, a) < U32_LIMIT
  {
    ElfLoad.LeBound(m[a..a + 4]);
    Machine.Pow256Widths();
  }

  /** Word j of the search window at base holds the header magic, 0x1badb002 little-endian. */
  predicate MagicWord(m: seq<bv8>, base: nat, j: nat)
    requires base + 4 * j + 4 <= |m|
  {
    var a := base + 4 * j;
    m[a] == 0x02 && m[a + 1] == 0xb0 && m[a + 2] == 0xad && m[a + 3] == 0x1b
  }

  /** The scan from word j on: the first of the window's words that holds the magic. */
  function ScanFrom(m: seq<bv8>, base: nat, words: nat, j: nat): (r: Option<nat>)
    requires base + 4 * words <= |m|
    ensures r.Some? ==> j <= r.value < words && MagicWord(m, base, r.value)
    ensures r.Some? ==> forall j' :: j <= j' < r.value ==> !MagicWord(m, base, j')
    ensures r.None? ==> forall j' :: j <= j' < words ==> !MagicWord(m, base, j')
    decreases words - j
  {
    if j >= words then None
    else if MagicWord(m, base, j) then Some(j)
    else ScanFrom(m, base, words, j + 1)
  }

  /**
   * `find_multiboot_header(base)`, where window is `MULTIBOOT_SEARCH -
   * sizeof(struct multiboot_info)`: the index j of the first word below
   * the window that holds the magic; the header is at base + 4 * j.
   */
  function FirstHeader(m: seq<bv8>, base: nat, window: nat): (r: Option<nat>)
    requires base + 4 * WordsIn(window) <= |m|
    ensures r.Some? ==> 4 * r.value < window && MagicWord(m, base, r.value)
    ensures r.Some? ==> forall j :: 0 <= j < r.value ==> !MagicWord(m, base, j)
    ensures r.None? ==> forall j :: 0 <= j < WordsIn(window) ==> !MagicWord(m, base, j)
  {
    var w := ScanFrom(m, base, WordsIn(window), 0);
    if w.Some? then WordsInWindow(window, w.value); w else w
  }

  method FindHeader(mem: array<bv8>, base: nat, window: nat) returns (r: Option<nat>)
    requires base + 4 * WordsIn(window) <= mem.Length
    ensures r == FirstHeader(mem[..], base, window)
  {
    var words := WordsIn(window);
    var j: nat := 0;
    while j < words
      invariant ScanFrom(mem[..], base, words, j) == ScanFrom(mem[..], base, words, 0)
      decreases words - j
    {
      if MagicWord(mem[..], base, j) {
        return Some(j);
      }
      j := j + 1;
    }
    return None;
  }

  // ---------------------------------------------------------------------
  // The a.out kludge

  /** Word k of the header at hdr. */
  function HeaderWord(m: seq<bv8>, hdr: nat, k: nat): nat
    requires k < 8 && hdr + MULTIBOOT_HEADER_BYTES <= |m|
  {
    Word32(m, hdr + 4 * k)
  }

  predicate Kludge(m: seq<bv8>, hdr: nat)
    requires hdr + MULTIBOOT_HEADER_BYTES <= |m|
  {
    (HeaderWord(m, hdr, 1) / MULTIBOOT_AOUT_KLUDGE) % 2 == 1
  }

  /** `load_end_addr - load_addr` and `bss_end_addr - load_end_addr`, in `uint32_t` arithmetic. */
  function CopySize(m: seq<bv8>, hdr: nat): nat
    requires hdr + MULTIBOOT_HEADER_BYTES <= |m|
  {
    (HeaderWord(m, hdr, 5) - HeaderWord(m, hdr, 4)) % U32_LIMIT
  }

  function BssSize(m: seq<bv8>, hdr: nat): nat
    requires hdr + MULTIBOOT_HEADER_BYTES <= |m|
  {
    (HeaderWord(m, hdr, 6) - HeaderWord(m, hdr, 5)) % U32_LIMIT
  }

  /** Memory after the `memcpy` of the image to load_addr. */
  function AoutCopied(m: seq<bv8>, image: nat, hdr: nat): (r: seq<bv8>)
    requires hdr + MULTIBOOT_HEADER_BYTES <= |m|
    requires HeaderWord(m, hdr, 4) + CopySize(m, hdr) <= |m| && image + CopySize(m, hdr) <= |m|
    ensures |r| == |m|
  {
    StringLib.Overwrite(m, HeaderWord(m, hdr, 4), m[image..image + CopySize(m, hdr)])
  }

  /**
   * What the kludge path needs of memory: the header, the copy and the
   * zeroed range inside it, and a copy the upward `memcpy` handles.  The
   * `memset` operands are read after the copy, as the C code reads them.
   */
  predicate AoutOk(m: seq<bv8>, image: nat, hdr: nat)
  {
    && hdr + MULTIBOOT_HEADER_BYTES <= |m|
    && HeaderWord(m, hdr, 4) + CopySize(m, hdr) <= |m| && image + CopySize(m, hdr) <= |m|
    && (HeaderWord(m, hdr, 4) <= image || image + CopySize(m, hdr) <= HeaderWord(m, hdr, 4))
    && var m1 := AoutCopied(m, image, hdr);
    HeaderWord(m1, hdr, 5) + BssSize(m1, hdr) <= |m|
  }

  /** Memory and entry after the kludge path: the copy, the zeroed bss, and entry_addr. */
  function AoutLoad(m: seq<bv8>, image: nat, hdr: nat): (r: (seq<bv8>, nat))
    requires AoutOk(m, image, hdr)
    ensures |r.0| == |m| && r.1 < U32_LIMIT
  {
    var m1 := AoutCopied(m, image, hdr);
    var m2 := StringLib.Overwrite(m1, HeaderWord(m1, hdr, 5), ElfLoad.Zeros(BssSize(m1, hdr)));
    Word32Bound(m2, hdr + 4 * 7);
    (m2, HeaderWord(m2, hdr, 7))
  }

  /** The kludge path's memory: the image's first load_end_addr - load_addr bytes copied to load_addr, then the bss zeroed. */
  lemma AoutMemory(m: seq<bv8>, image: nat, hdr: nat)
    requires AoutOk(m, image, hdr)
    ensures var m1 := StringLib.Overwrite(m, HeaderWord(m, hdr, 4), m[image..image + CopySize(m, hdr)]);
      AoutLoad(m, image, hdr).0 == StringLib.Overwrite(m1, HeaderWord(m1, hdr, 5), ElfLoad.Zeros(BssSize(m1, hdr)))
  {
  }

  /**
   * The kludge path byte by byte: the first load_end_addr - load_addr
   * bytes of the image land at load_addr, the bss after them is zero, and
   * every other byte is unchanged.  The bss bounds are read after the copy.
   */
  lemma AoutContents(m: seq<bv8>, image: nat, hdr: nat, k: nat)
    requires AoutOk(m, image, hdr) && k < |m|
    ensures var m1 := AoutCopied(m, image, hdr);
      var load, count := HeaderWord(m, hdr, 4), CopySize(m, hdr);
      var bss, zeros := HeaderWord(m1, hdr, 5), BssSize(m1, hdr);
      var r := AoutLoad(m, image, hdr).0[k];
      && (bss <= k < bss + zeros ==> r == 0)
      && (load <= k < load + count && !(bss <= k < bss + zeros) ==> r == m[image + (k - load)])
      && (!(load <= k < load + count) && !(bss <= k < bss + zeros) ==> r == m[k])
  {
    var m1 := AoutCopied(m, image, hdr);
    var load, count := HeaderWord(m, hdr, 4), CopySize(m, hdr);
    var bss, zeros := HeaderWord(m1, hdr, 5), BssSize(m1, hdr);
    AoutMemory(m, image, hdr);
    var r := AoutLoad(m, image, hdr).0[k];
    CopyThenZero(m, load, image, count, bss, zeros, k);
    if load <= k < load + count && !(bss <= k < bss + zeros) {
      assert r == m[image + (k - load)];
    }
  }

  /** A copy followed by a zero fill, byte by byte. */
  lemma CopyThenZero(m: seq<bv8>, load: nat, image: nat, count: nat, bss: nat, zeros: nat, k: nat)
    requires load + count <= |m| && image + count <= |m| && bss + zeros <= |m| && k < |m|
    ensures var m2 := StringLib.Overwrite(StringLib.Overwrite(m, load, m[image..image + count]), bss, ElfLoad.Zeros(zeros));
      && (bss <= k < bss + zeros ==> m2[k] == 0)
      && (load <= k < load + count && !(bss <= k < bss + zeros) ==> m2[k] == m[image + (k - load)])
      && (!(load <= k < load + count) && !(bss <= k < bss + zeros) ==> m2[k] == m[k])
  {
    var m1 := StringLib.Overwrite(m, load, m[image..image + count]);
    StringLib.OverwriteAt(m, load, m[image..image + count], k);
    StringLib.OverwriteAt(m1, bss, ElfLoad.Zeros(zeros), k);
  }

  /** The header words depend only on the header's 32 bytes. */
  lemma HeaderFieldsKept(m: seq<bv8>, m': seq<bv8>, hdr: nat)
    requires hdr + MULTIBOOT_HEADER_BYTES <= |m| && |m'| == |m|
    requires forall j :: hdr <= j < hdr + MULTIBOOT_HEADER_BYTES ==> m'[j] == m[j]
    ensures forall k :: 0 <= k < 8 ==> HeaderWord(m', hdr, k) == HeaderWord(m, hdr, k)
  {
    forall k | 0 <= k < 8
      ensures HeaderWord(m', hdr, k) == HeaderWord(m, hdr, k)
    {
      var a := hdr + 4 * k;
      assert m'[a..a + 4] == m[a..a + 4];
    }
  }

  /**
   * When neither the copy nor the zero fill reaches the header, the bss
   * bounds read after the copy and the entry point read at the end are
   * the header's own load_end_addr, bss_end_addr and entry_addr.
   */
  lemma AoutHeaderKept(m: seq<bv8>, image: nat, hdr: nat)
    requires AoutOk(m, image, hdr)
    requires var load, count := HeaderWord(m, hdr, 4), CopySize(m, hdr);
      hdr + MULTIBOOT_HEADER_BYTES <= load || load + count <= hdr
    requires var bss, zeros := HeaderWord(m, hdr, 5), BssSize(m, hdr);
      hdr + MULTIBOOT_HEADER_BYTES <= bss || bss + zeros <= hdr
    ensures var m1 := AoutCopied(m, image, hdr);
      HeaderWord(m1, hdr, 5) == HeaderWord(m, hdr, 5) && BssSize(m1, hdr) == BssSize(m, hdr)
    ensures AoutLoad(m, image, hdr).1 == HeaderWord(m, hdr, 7)
  {
    var m1 := AoutCopied(m, image, hdr);
    forall j | hdr <= j < hdr + MULTIBOOT_HEADER_BYTES
      ensures m1[j] == m[j]
    {
      StringLib.OverwriteAt(m, HeaderWord(m, hdr, 4), m[image..image + CopySize(m, hdr)], j);
    }
    HeaderFieldsKept(m, m1, hdr);
    var m2 := AoutLoad(m, image, hdr).0;
    AoutMemory(m, image, hdr);
    forall j | hdr <= j < hdr + MULTIBOOT_HEADER_BYTES
      ensures m2[j] == m1[j]
    {
      StringLib.OverwriteAt(m1, HeaderWord(m1, hdr, 5), ElfLoad.Zeros(BssSize(m1, hdr)), j);
    }
    HeaderFieldsKept(m1, m2, hdr);
  }

  /** The `memcpy` of the kludge path. */
  method CopyAout(mem: array<bv8>, image: nat, hdr: nat)
    requires AoutOk(mem[..], image, hdr)
    modifies mem
    ensures mem[..] == AoutCopied(old(mem[..]), image, hdr)
  {
    ghost var m := mem[..];
    var load := HeaderWord(mem[..], hdr, 4);
    var count := CopySize(mem[..], hdr);
    assert load + count <= mem.Length && image + count <= mem.Length;
    assert load <= image || image + count <= load;
    ghost var m1 := AoutCopied(m, image, hdr);
    assert m1 == StringLib.Overwrite(m, load, m[image..image + count]);
    var _ := StringLib.MemCpy(mem, load, image, count);
  }

  /** The `memset` of the bss, with its bounds read from the header as it is now. */
  method ZeroBss(mem: array<bv8>, hdr: nat)
    requires hdr + MULTIBOOT_HEADER_BYTES <= mem.Length
    requires HeaderWord(mem[..], hdr, 5) + BssSize(mem[..], hdr) <= mem.Length
    modifies mem
    ensures mem[..] == StringLib.Overwrite(old(mem[..]), HeaderWord(old(mem[..]), hdr, 5), ElfLoad.Zeros(BssSize(old(mem[..]), hdr)))
  {
    var loadEnd := HeaderWord(mem[..], hdr, 5);
    var zeros := BssSize(mem[..], hdr);
    var _ := StringLib.MemSet(mem, loadEnd, 0, zeros);
  }

  method LoadAout(mem: array<bv8>, image: nat, hdr: nat) returns (entry: nat)
    requires AoutOk(mem[..], image, hdr)
    modifies mem
    ensures mem[..] == AoutLoad(old(mem[..]), image, hdr).0
    ensures entry == AoutLoad(old(mem[..]), image, hdr).1
  {
    CopyAout(mem, image, hdr);
    ZeroBss(mem, hdr);
    entry := HeaderWord(mem[..], hdr, 7);
  }

  // ---------------------------------------------------------------------
  // Loading the kernel image

  /** `memcmp(e_ident, ELFMAG, SELFMAG) == 0`: the image starts with "\x7fELF". */
  predicate ElfMagic(m: seq<bv8>, image: nat)
    requires image + 4 <= |m|
  {
    m[image..image + 4] == [0x7f, 0x45, 0x4c, 0x46]
  }

  /** The class `e_ident[EI_CLASS]` selects, if it is one the firmware loads. */
  function ClassOf(m: seq<bv8>, image: nat): Option<ElfLoad.ElfClass>
    requires image + EI_CLASS < |m|
  {
    if m[image + EI_CLASS] == ELFCLASS32 then Some(ElfLoad.Elf32)
    else if m[image + EI_CLASS] == ELFCLASS64 then Some(ElfLoad.Elf64)
    else None
  }

  /** The ELF path reads e_ident, and an image it accepts lies in memory. */
  ghost predicate ElfOk(m: seq<bv8>, image: nat)
  {
    image + EI_CLASS < |m| &&
    (ElfMagic(m, image) && ClassOf(m, image).Some? ==> ElfLoad.ElfLoadable(m, image, ClassOf(m, image).value))
  }

  /** The ELF path: None for a wrong magic or a class other than ELFCLASS32 and ELFCLASS64. */
  ghost function ElfBoot(m: seq<bv8>, image: nat): (r: Option<(seq<bv8>, nat)>)
    requires ElfOk(m, image)
    ensures r.Some? ==> r.value.1 < U32_LIMIT
  {
    if !ElfMagic(m, image) || ClassOf(m, image).None? then None
    else
      ElfLoad.LoadElfEntryBound(m, image, ClassOf(m, image).value);
      Some(ElfLoad.LoadElfSpec(m, image, ClassOf(m, image).value))
  }

  /** What the path taken for the header at hdr reads and writes lies in memory. */
  ghost predicate HeaderOk(m: seq<bv8>, image: nat, hdr: nat)
  {
    && hdr + MULTIBOOT_HEADER_BYTES <= |m|
    && (Kludge(m, hdr) ==> AoutOk(m, image, hdr))
    && (!Kludge(m, hdr) ==> ElfOk(m, image))
  }

  /** The header's flags choose the a.out kludge or the ELF path. */
  ghost function BootAt(m: seq<bv8>, image: nat, hdr: nat): (r: Option<(seq<bv8>, nat)>)
    requires HeaderOk(m, image, hdr)
    ensures r.Some? ==> r.value.1 < U32_LIMIT
  {
    if Kludge(m, hdr) then Some(AoutLoad(m, image, hdr)) else ElfBoot(m, image)
  }

  ghost predicate Bootable(m: seq<bv8>, image: nat, window: nat)
  {
    image + 4 * WordsIn(window) <= |m| &&
    (FirstHeader(m, image, window).Some? ==> HeaderOk(m, image, image + 4 * FirstHeader(m, image, window).value))
  }

  /**
   * Memory and entry after the image is loaded, or None when there is no
   * header, the ELF magic is wrong or the class is neither 32 nor 64 bit.
   */
  ghost function Boot(m: seq<bv8>, image: nat, window: nat): (r: Option<(seq<bv8>, nat)>)
    requires Bootable(m, image, window)
    ensures r.Some? ==> r.value.1 < U32_LIMIT
  {
    match FirstHeader(m, image, window)
    case None => None
    case Some(j) => BootAt(m, image, image + 4 * j)
  }

  /** A loader step's effect: nothing on None, else the outcome's memory and entry. */
  predicate Effect(b: Option<(seq<bv8>, nat)>, m0: seq<bv8>, m: seq<bv8>, entry: Option<nat>)
  {
    && (b.None? ==> entry.None? && m == m0)
    && (b.Some? ==> entry == Some(b.value.1) && m == b.value.0)
  }

  method LoadElfImage(mem: array<bv8>, image: nat) returns (entry: Option<nat>)
    requires ElfOk(mem[..], image)
    modifies mem
    ensures Effect(ElfBoot(old(mem[..]), image), old(mem[..]), mem[..], entry)
  {
    if mem[image..image + 4] != [0x7f, 0x45, 0x4c, 0x46] {
      return None;
    }
    var c := ClassOf(mem[..], image);
    if c.None? {
      return None;
    }
    var e := ElfLoad.LoadElf(mem, image, c.value);
    return Some(e);
  }

  method LoadAt(mem: array<bv8>, image: nat, hdr: nat) returns (entry: Option<nat>)
    requires HeaderOk(mem[..], image, hdr)
    modifies mem
    ensures Effect(BootAt(old(mem[..]), image, hdr), old(mem[..]), mem[..], entry)
  {
    if Kludge(mem[..], hdr) {
      var e := LoadAout(mem, image, hdr);
      return Some(e);
    }
    entry := LoadElfImage(mem, image);
  }

  /** The kernel half of `load_multiboot`: memory is unchanged when it returns early. */
  method LoadImage(mem: array<bv8>, image: nat, window: nat) returns (entry: Option<nat>)
    requires Bootable(mem[..], image, window)
    modifies mem
    ensures Effect(Boot(old(mem[..]), image, window), old(mem[..]), mem[..], entry)
  {
    var h := FindHeader(mem, image, window);
    if h.None? {
      return None;
    }
    entry := LoadAt(mem, image, image + 4 * h.value);
  }

  // ---------------------------------------------------------------------
  // The boot information

  /** `mmap[i]` for an e820 entry: the record, with size = sizeof(mmap[i]) - sizeof(mmap[i].size). */
  function Mirror(e: Entry): (r: MmapEntry)
    ensures r.size == MMAP_ENTRY_SIZE
  {
    MmapEntry(MMAP_ENTRY_SIZE, e.addr, e.size, e.kind)
  }

  function MmapOf(es: seq<Entry>): (r: seq<MmapEntry>)
    ensures |r| == |es| && forall i :: 0 <= i < |es| ==> r[i] == Mirror(es[i])
  {
    seq(|es|, i requires 0 <= i < |es| => Mirror(es[i]))
  }

  /**
   * The hand-off to the kernel: the walk of `e820_range_add_multiboot` over
   * mmap_length = n * sizeof(mmap[0]) bytes of the firmware's records
   * visits exactly those n records, and appends exactly the e820 entries
   * the firmware was given.
   */
  lemma {:induction false} MmapHandOff(es: seq<Entry>, t: seq<Entry>)
    ensures Walkable(EncodeMmap(MmapOf(es)), 0, MMAP_ENTRY_BYTES * |es|)
    ensures Records(EncodeMmap(MmapOf(es)), 0, MMAP_ENTRY_BYTES * |es|) == MmapOf(es)
    ensures |t| + |es| <= E820_MAX_ENTRIES ==> E820.AppendAll(t, MmapOf(es)) == t + es
  {
    EncodedWalk(MmapOf(es), 0);
    assert MmapOf(es)[0..] == MmapOf(es);
    AppendMirrors(t, es);
  }

  lemma {:induction false} AppendMirrors(t: seq<Entry>, es: seq<Entry>)
    ensures |t| + |es| <= E820_MAX_ENTRIES ==> E820.AppendAll(t, MmapOf(es)) == t + es
    decreases |es|
  {
    if |es| > 0 && |t| + |es| <= E820_MAX_ENTRIES {
      var ms := MmapOf(es);
      assert ms[1..] == MmapOf(es[1..]);
      assert E820Update.Append(t, es[0]) == t + [es[0]];
      AppendMirrors(t + [es[0]], es[1..]);
      assert t + [es[0]] + es[1..] == t + es;
    }
  }

  /** The firmware's boot information tells the VMM-side consumer that a memory map is present. */
  lemma InfoFlagsValid()
    ensures HasMemMap(INFO_FLAGS)
    ensures INFO_FLAGS == MULTIBOOT_INFO_MEMORY + MULTIBOOT_INFO_CMDLINE + MULTIBOOT_INFO_MODS + MULTIBOOT_INFO_MEM_MAP
    ensures MEM_UPPER == 0x3_fc00
  {
  }

  /** The firmware's static boot-information objects. */
  class Firmware {
    var info: Info
    var modList: ModEntry
    const mmap: array<MmapEntry>
    /** `__pa(&mod_list)`, `__pa(mmap)` and `__pa("initrd")`. */
    const modListAddr: u32
    const mmapAddr: u32
    const initrdNameAddr: u32

    ghost predicate Valid()
      reads this
    {
      mmap.Length == E820_MAX_ENTRIES_GUEST
    }

    /** Static storage starts out zero. */
    constructor (modListAt: u32, mmapAt: u32, initrdNameAt: u32)
      ensures Valid() && fresh(mmap)
      ensures info == Info(0, 0, 0, 0, 0, 0, 0, 0) && modList == ModEntry(0, 0, 0)
      ensures modListAddr == modListAt && mmapAddr == mmapAt && initrdNameAddr == initrdNameAt
    {
      info := Info(0, 0, 0, 0, 0, 0, 0, 0);
      modList := ModEntry(0, 0, 0);
      mmap := new MmapEntry[E820_MAX_ENTRIES_GUEST](_ => MmapEntry(0, 0, 0, 0));
      modListAddr, mmapAddr, initrdNameAddr := modListAt, mmapAt, initrdNameAt;
    }

    /** The `mmap[]` loop: record i mirrors e820 entry i, for i < n, and the rest is unchanged. */
    method FillMmap(table: array<Entry>, n: nat)
      requires Valid() && n <= table.Length && n <= mmap.Length
      modifies mmap
      ensures mmap[..n] == MmapOf(table[..n]) && mmap[n..] == old(mmap[n..])
    {
      var i := 0;
      while i < n
        invariant i <= n
        invariant mmap[..i] == MmapOf(table[..i])
        invariant mmap[n..] == old(mmap[n..])
      {
        mmap[i] := Mirror(table[i]);
        assert mmap[..i + 1] == mmap[..i] + [mmap[i]];
        assert table[..i + 1] == table[..i] + [table[i]];
        i := i + 1;
      }
    }

    /**
     * The boot information once the image is loaded: flags, upper memory,
     * the command line, the initrd module when there is one, and the
     * memory map copied from the guest's e820 table.
     */
    method DescribeBoot(params: GuestParams)
      requires Valid() && params.Valid() && params.e820Entries as nat <= E820_MAX_ENTRIES_GUEST
      modifies this, mmap
      ensures var n := params.e820Entries as nat;
        var initrd := params.initrdStart < params.initrdEnd;
        && info == Info(INFO_FLAGS, 0, MEM_UPPER, params.cmdlineAt % U32_LIMIT,
                        if initrd then 1 else old(info.modsCount), if initrd then modListAddr else old(info.modsAddr),
                        (MMAP_ENTRY_BYTES * n) as u32, mmapAddr)
        && modList == (if initrd then ModEntry(params.initrdStart % U32_LIMIT, params.initrdEnd % U32_LIMIT, initrdNameAddr)
                       else old(modList))
        && mmap[..n] == MmapOf(params.e820Table[..n]) && mmap[n..] == old(mmap[n..])
    {
      var modsCount, modsAddr := info.modsCount, info.modsAddr;
      if params.initrdStart < params.initrdEnd {
        modsCount, modsAddr := 1, modListAddr;
        modList := ModEntry(params.initrdStart % U32_LIMIT, params.initrdEnd % U32_LIMIT, initrdNameAddr);
      }
      var n := params.e820Entries as nat;
      FillMmap(params.e820Table, n);
      info := Info(INFO_FLAGS, 0, MEM_UPPER, params.cmdlineAt % U32_LIMIT, modsCount, modsAddr, (MMAP_ENTRY_BYTES * n) as u32, mmapAddr);
    }

    /**
     * `load_multiboot`: an early return changes nothing; otherwise the
     * image is loaded, the boot information is filled in, and the entry
     * point is returned for `start_multiboot`.
     */
    method LoadMultiboot(mem: array<bv8>, params: GuestParams, window: nat) returns (started: Option<u32>)
      requires Valid() && params.Valid() && params.e820Entries as nat <= E820_MAX_ENTRIES_GUEST
      requires Bootable(mem[..], params.kernelStart, window)
      requires mem as object != mmap
      modifies mem, this, mmap
      ensures var b := Boot(old(mem[..]), params.kernelStart, window);
        && (b.None? ==> started.None? && mem[..] == old(mem[..]) && info == old(info) && modList == old(modList)
                        && mmap[..] == old(mmap[..]))
        && (b.Some? ==> started == Some(b.value.1 as u32) && mem[..] == b.value.0)
      ensures var n := params.e820Entries as nat;
        var initrd := params.initrdStart < params.initrdEnd;
        started.Some? ==>
          && info == Info(INFO_FLAGS, 0, MEM_UPPER, params.cmdlineAt % U32_LIMIT,
                          if initrd then 1 else old(info.modsCount), if initrd then modListAddr else old(info.modsAddr),
                          (MMAP_ENTRY_BYTES * n) as u32, mmapAddr)
          && modList == (if initrd then ModEntry(params.initrdStart % U32_LIMIT, params.initrdEnd % U32_LIMIT, initrdNameAddr)
                         else old(modList))
          && mmap[..n] == MmapOf(params.e820Table[..n]) && mmap[n..] == old(mmap[n..])
    {
      var entry := LoadImage(mem, params.kernelStart, window);
      if entry.None? {
        return None;
      }
      DescribeBoot(params);
      started := Some(entry.value as u32);
    }
  }
}
