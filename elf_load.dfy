/**
 * The firmware's ELF loader, firmware/elfload.h, instantiated by
 * firmware/multiboot.c for ELF32 and ELF64 (`load_elf32`, `load_elf64`).
 * It walks the program headers of an image in memory, copies every
 * PT_LOAD segment to its physical address, zeroes the rest of the segment
 * and translates the entry point from virtual to physical (System V ABI,
 * "ELF Header" and "Program Header").
 *
 * Memory is one byte array indexed by physical address (`__va` is the
 * identity).  The image lies in the same memory, so a program header is
 * read from memory as earlier segments have left it, as in the C code.
 */
module ElfLoad {
  import Machine
  import StringLib

  const PT_LOAD: nat := 1
  const U32_LIMIT: nat := 0x1_0000_0000

  datatype ElfClass = Elf32 | Elf64

  /** The fields of `struct elf32_phdr` / `struct elf64_phdr` that the loader reads. */
  datatype Phdr = Phdr(pType: nat, pOffset: nat, pVaddr: nat, pPaddr: nat, pFilesz: nat, pMemsz: nat)

  /** A little-endian number. */
  function Le(b: seq<bv8>): (r: nat)
    decreases |b|
  {
    if |b| == 0 then 0 else b[0] as nat + 256 * Le(b[1..])
  }

  /** n little-endian bytes stand for a number below 256^n. */
  lemma {:induction false} LeBound(b: seq<bv8>)
    ensures Le(b) < Machine.Pow256(|b|)
    decreases |b|
  {
    if |b| > 0 {
      LeBound(b[1..]);
      assert b[0] as nat < 256;
    }
  }

  /** The n bytes at `at`, little-endian. */
  function Field(m: seq<bv8>, at: nat, n: nat): (r: nat)
    requires at + n <= |m|
  {
    Le(m[at..at + n])
  }

  /** `sizeof(struct elf32_phdr)` and `sizeof(struct elf64_phdr)`. */
  function PhdrSize(c: ElfClass): nat
  {
    if c == Elf32 then 32 else 56
  }

  /** `sizeof(struct elf32_hdr)` and `sizeof(struct elf64_hdr)`. */
  function EhdrSize(c: ElfClass): nat
  {
    if c == Elf32 then 52 else 64
  }

  /** The program header whose first byte is at `at`. */
  function DecodePhdr(m: seq<bv8>, at: nat, c: ElfClass): Phdr
    requires at + PhdrSize(c) <= |m|
  {
    if c == Elf32 then
      Phdr(Field(m, at, 4), Field(m, at + 4, 4), Field(m, at + 8, 4), Field(m, at + 12, 4), Field(m, at + 16, 4), Field(m, at + 20, 4))
    else
      Phdr(Field(m, at, 4), Field(m, at + 8, 8), Field(m, at + 16, 8), Field(m, at + 24, 8), Field(m, at + 32, 8), Field(m, at + 40, 8))
  }

  /** `e_entry`, `e_phoff` and `e_phnum` of the header at hdr. */
  function EEntry(m: seq<bv8>, hdr: nat, c: ElfClass): nat
    requires hdr + EhdrSize(c) <= |m|
  {
    if c == Elf32 then Field(m, hdr + 24, 4) else Field(m, hdr + 24, 8)
  }

  function EPhoff(m: seq<bv8>, hdr: nat, c: ElfClass): nat
    requires hdr + EhdrSize(c) <= |m|
  {
    if c == Elf32 then Field(m, hdr + 28, 4) else Field(m, hdr + 32, 8)
  }

  function EPhnum(m: seq<bv8>, hdr: nat, c: ElfClass): nat
    requires hdr + EhdrSize(c) <= |m|
  {
    if c == Elf32 then Field(m, hdr + 44, 2) else Field(m, hdr + 56, 2)
  }

  /**
   * The walk the loop performs: the image at hdr, the first program header
   * at phAt (`(void *)hdr + hdr->e_phoff`) and the header count n, all
   * read once before the loop.
   */
  datatype Walk = Walk(hdr: nat, phAt: nat, c: ElfClass, n: nat)

  function HeaderWalk(m: seq<bv8>, hdr: nat, c: ElfClass): Walk
    requires hdr + EhdrSize(c) <= |m|
  {
    Walk(hdr, hdr + EPhoff(m, hdr, c), c, EPhnum(m, hdr, c))
  }

  /** The address of program header i. */
  function PhdrAddr(w: Walk, i: nat): nat
  {
    w.phAt + i * PhdrSize(w.c)
  }

  predicate PhdrFits(m: seq<bv8>, w: Walk, i: nat)
  {
    PhdrAddr(w, i) + PhdrSize(w.c) <= |m|
  }

  function PhdrAt(m: seq<bv8>, w: Walk, i: nat): Phdr
    requires PhdrFits(m, w, i)
  {
    DecodePhdr(m, PhdrAddr(w, i), w.c)
  }

  /** Where a segment's file bytes start in memory: `(void *)hdr + p_offset`. */
  function Source(w: Walk, ph: Phdr): nat
  {
    w.hdr + ph.pOffset
  }

  /**
   * What the C code relies on for a PT_LOAD segment: p_memsz >= p_filesz (so
   * `p_memsz - p_filesz` does not wrap), source and destination inside
   * memory, and an overlap the upward copy of `memcpy` handles.
   */
  predicate SegmentOk(m: seq<bv8>, w: Walk, ph: Phdr)
  {
    ph.pType != PT_LOAD ||
    (&& ph.pFilesz <= ph.pMemsz && ph.pPaddr + ph.pMemsz <= |m| && Source(w, ph) + ph.pFilesz <= |m|
     && (ph.pPaddr <= Source(w, ph) || Source(w, ph) + ph.pFilesz <= ph.pPaddr))
  }

  /** The `memset(dest + p_filesz, 0, p_memsz - p_filesz)` bytes. */
  function Zeros(n: nat): seq<bv8>
  {
    seq(n, _ => StringLib.CharOf(0))
  }

  /** The bytes `memset(p, 0, n)` stores are the zeros of the segment. */
  lemma MemsetZeros(n: nat)
    ensures seq(n, _ => StringLib.CharOf(0)) == Zeros(n)
  {
  }

  /** The entry point after a PT_LOAD header: translated into the segment's physical range when it lies in its virtual range. */
  function NextEntry(entry: nat, ph: Phdr): nat
  {
    if entry >= ph.pVaddr && entry - ph.pVaddr < ph.pMemsz then (ph.pPaddr + (entry - ph.pVaddr)) % U32_LIMIT else entry
  }

  /** The memory after one loaded segment: the file bytes at the physical address, then zeros up to p_memsz. */
  function LoadSegment(m: seq<bv8>, w: Walk, ph: Phdr): (r: seq<bv8>)
    requires ph.pType == PT_LOAD && SegmentOk(m, w, ph)
    ensures |r| == |m|
  {
    var m1 := StringLib.Overwrite(m, ph.pPaddr, m[Source(w, ph)..Source(w, ph) + ph.pFilesz]);
    StringLib.Overwrite(m1, ph.pPaddr + ph.pFilesz, Zeros(ph.pMemsz - ph.pFilesz))
  }

  /** LoadSegment is the copy followed by the zero fill. */
  lemma LoadSegmentSteps(m: seq<bv8>, w: Walk, ph: Phdr)
    requires ph.pType == PT_LOAD && SegmentOk(m, w, ph)
    ensures var m1 := StringLib.Overwrite(m, ph.pPaddr, m[Source(w, ph)..Source(w, ph) + ph.pFilesz]);
      LoadSegment(m, w, ph) == StringLib.Overwrite(m1, ph.pPaddr + ph.pFilesz, Zeros(ph.pMemsz - ph.pFilesz))
  {
  }

  /** One iteration of the loop: memory and entry after header ph. */
  function Step(m: seq<bv8>, w: Walk, ph: Phdr, entry: nat): (r: (seq<bv8>, nat))
    requires SegmentOk(m, w, ph)
    ensures |r.0| == |m|
  {
    if ph.pType != PT_LOAD then (m, entry) else (LoadSegment(m, w, ph), NextEntry(entry, ph))
  }

  /** Every header the loop visits from i on lies in memory and describes a segment it can load. */
  ghost predicate Loadable(m: seq<bv8>, w: Walk, i: nat, entry: nat)
    decreases w.n - i
  {
    i >= w.n ||
    (PhdrFits(m, w, i) && SegmentOk(m, w, PhdrAt(m, w, i)) &&
     var r := Step(m, w, PhdrAt(m, w, i), entry);
     Loadable(r.0, w, i + 1, r.1))
  }

  /** The memory and entry the loop leaves, from header i on. */
  ghost function LoadFrom(m: seq<bv8>, w: Walk, i: nat, entry: nat): (r: (seq<bv8>, nat))
    requires Loadable(m, w, i, entry)
    ensures |r.0| == |m|
    decreases w.n - i
  {
    if i >= w.n then (m, entry)
    else
      var r := Step(m, w, PhdrAt(m, w, i), entry);
      LoadFrom(r.0, w, i + 1, r.1)
  }

  /**
   * `load_elf32` / `load_elf64` on the image at hdr: the entry is
   * `e_entry` as a `uint32_t`, and the rest is the walk.
   */
  ghost predicate ElfLoadable(m: seq<bv8>, hdr: nat, c: ElfClass)
  {
    hdr + EhdrSize(c) <= |m| && Loadable(m, HeaderWalk(m, hdr, c), 0, EEntry(m, hdr, c) % U32_LIMIT)
  }

  ghost function LoadElfSpec(m: seq<bv8>, hdr: nat, c: ElfClass): (r: (seq<bv8>, nat))
    requires ElfLoadable(m, hdr, c)
  {
    LoadFrom(m, HeaderWalk(m, hdr, c), 0, EEntry(m, hdr, c) % U32_LIMIT)
  }

  method LoadElf(mem: array<bv8>, hdr: nat, c: ElfClass) returns (entry: nat)
    requires ElfLoadable(mem[..], hdr, c)
    modifies mem
    ensures (mem[..], entry) == LoadElfSpec(old(mem[..]), hdr, c)
  {
    var w := HeaderWalk(mem[..], hdr, c);
    entry := EEntry(mem[..], hdr, c) % U32_LIMIT;
    ghost var target := LoadFrom(mem[..], w, 0, entry);
    var i := 0;
    while i < w.n
      invariant Loadable(mem[..], w, i, entry)
      invariant LoadFrom(mem[..], w, i, entry) == target
      decreases w.n - i
    {
      ghost var next := LoadFromStep(mem[..], w, i, entry);
      entry := VisitHeader(mem, w, i, entry);
      assert (mem[..], entry) == next;
      i := i + 1;
    }
  }

  /** One iteration of the loop: header i is skipped unless it is PT_LOAD. */
  method VisitHeader(mem: array<bv8>, w: Walk, i: nat, entry: nat) returns (entry': nat)
    requires PhdrFits(mem[..], w, i) && SegmentOk(mem[..], w, PhdrAt(mem[..], w, i))
    modifies mem
    ensures (mem[..], entry') == Step(old(mem[..]), w, PhdrAt(old(mem[..]), w, i), entry)
  {
    var ph := PhdrAt(mem[..], w, i);
    entry' := entry;
    if ph.pType == PT_LOAD {
      LoadOne(mem, w, ph);
      entry' := NextEntry(entry, ph);
    }
  }

  /** Unfolding the walk by one header. */
  lemma LoadFromStep(m: seq<bv8>, w: Walk, i: nat, entry: nat) returns (next: (seq<bv8>, nat))
    requires Loadable(m, w, i, entry) && i < w.n
    ensures PhdrFits(m, w, i) && SegmentOk(m, w, PhdrAt(m, w, i))
    ensures next == Step(m, w, PhdrAt(m, w, i), entry)
    ensures Loadable(next.0, w, i + 1, next.1) && LoadFrom(m, w, i, entry) == LoadFrom(next.0, w, i + 1, next.1)
  {
    next := Step(m, w, PhdrAt(m, w, i), entry);
  }

  /** The `memcpy` and `memset` of one PT_LOAD segment. */
  method LoadOne(mem: array<bv8>, w: Walk, ph: Phdr)
    requires ph.pType == PT_LOAD && SegmentOk(mem[..], w, ph)
    modifies mem
    ensures mem[..] == LoadSegment(old(mem[..]), w, ph)
  {
    ghost var m0 := mem[..];
    var dest := ph.pPaddr;
    var _ := StringLib.MemCpy(mem, dest, Source(w, ph), ph.pFilesz);
    ghost var m1 := mem[..];
    assert m1 == StringLib.Overwrite(m0, ph.pPaddr, m0[Source(w, ph)..Source(w, ph) + ph.pFilesz]);
    var _ := StringLib.MemSet(mem, dest + ph.pFilesz, 0, ph.pMemsz - ph.pFilesz);
    assert mem[..] == StringLib.Overwrite(m1, ph.pPaddr + ph.pFilesz, Zeros(ph.pMemsz - ph.pFilesz)) by {
      MemsetZeros(ph.pMemsz - ph.pFilesz);
    }
    LoadSegmentSteps(m0, w, ph);
  }

  // ---------------------------------------------------------------------
  // What a load does to memory and to the entry point.

  /** The bytes a segment's destination [p_paddr, p_paddr + p_memsz) spans. */
  predicate InDest(ph: Phdr, k: nat)
  {
    ph.pType == PT_LOAD && ph.pPaddr <= k < ph.pPaddr + ph.pMemsz
  }

  /**
   * One PT_LOAD segment: its file bytes land at p_paddr, the rest of its
   * memory size is zero, and every other byte is unchanged.
   */
  lemma LoadSegmentContents(m: seq<bv8>, w: Walk, ph: Phdr, k: nat)
    requires ph.pType == PT_LOAD && SegmentOk(m, w, ph) && k < |m|
    ensures ph.pPaddr <= k < ph.pPaddr + ph.pFilesz ==> LoadSegment(m, w, ph)[k] == m[Source(w, ph) + (k - ph.pPaddr)]
    ensures ph.pPaddr + ph.pFilesz <= k < ph.pPaddr + ph.pMemsz ==> LoadSegment(m, w, ph)[k] == 0
    ensures !InDest(ph, k) ==> LoadSegment(m, w, ph)[k] == m[k]
  {
    var data := m[Source(w, ph)..Source(w, ph) + ph.pFilesz];
    var m1 := StringLib.Overwrite(m, ph.pPaddr, data);
    StringLib.OverwriteAt(m, ph.pPaddr, data, k);
    StringLib.OverwriteAt(m1, ph.pPaddr + ph.pFilesz, Zeros(ph.pMemsz - ph.pFilesz), k);
  }

  /** No PT_LOAD header the walk visits from i on has byte k in its destination. */
  ghost predicate Untouched(m: seq<bv8>, w: Walk, i: nat, entry: nat, k: nat)
    requires Loadable(m, w, i, entry)
    decreases w.n - i
  {
    i >= w.n ||
    (!InDest(PhdrAt(m, w, i), k) &&
     var r := Step(m, w, PhdrAt(m, w, i), entry);
     Untouched(r.0, w, i + 1, r.1, k))
  }

  /** No PT_LOAD header the walk visits from i on moves the entry. */
  ghost predicate EntryFixed(m: seq<bv8>, w: Walk, i: nat, entry: nat)
    requires Loadable(m, w, i, entry)
    decreases w.n - i
  {
    i >= w.n ||
    ((PhdrAt(m, w, i).pType == PT_LOAD ==> NextEntry(entry, PhdrAt(m, w, i)) == entry) &&
     var r := Step(m, w, PhdrAt(m, w, i), entry);
     EntryFixed(r.0, w, i + 1, r.1))
  }

  /**
   * Unfolding the walk by one header, stated without the memory the step
   * leaves: the entry it leaves, and the bytes outside the header's
   * destination.
   */
  lemma VisitedStep(m: seq<bv8>, w: Walk, i: nat, entry: nat, k: nat) returns (next: (seq<bv8>, nat))
    requires Loadable(m, w, i, entry) && i < w.n
    ensures PhdrFits(m, w, i) && |next.0| == |m|
    ensures Loadable(next.0, w, i + 1, next.1) && LoadFrom(m, w, i, entry) == LoadFrom(next.0, w, i + 1, next.1)
    ensures next.1 == if PhdrAt(m, w, i).pType == PT_LOAD then NextEntry(entry, PhdrAt(m, w, i)) else entry
    ensures k < |m| && !InDest(PhdrAt(m, w, i), k) ==> next.0[k] == m[k]
    ensures Untouched(m, w, i, entry, k) <==> !InDest(PhdrAt(m, w, i), k) && Untouched(next.0, w, i + 1, next.1, k)
    ensures EntryFixed(m, w, i, entry) <==>
      (PhdrAt(m, w, i).pType == PT_LOAD ==> NextEntry(entry, PhdrAt(m, w, i)) == entry) && EntryFixed(next.0, w, i + 1, next.1)
  {
    next := LoadFromStep(m, w, i, entry);
    var ph := PhdrAt(m, w, i);
    if ph.pType == PT_LOAD && k < |m| {
      LoadSegmentContents(m, w, ph, k);
    }
  }

  /** A byte that no visited PT_LOAD segment's destination covers keeps its value. */
  lemma {:induction false} LoadFromFrame(m: seq<bv8>, w: Walk, i: nat, entry: nat, k: nat)
    requires Loadable(m, w, i, entry) && k < |m| && Untouched(m, w, i, entry, k)
    ensures LoadFrom(m, w, i, entry).0[k] == m[k]
    decreases w.n - i
  {
    if i < w.n {
      var r := VisitedStep(m, w, i, entry, k);
      LoadFromFrame(r.0, w, i + 1, r.1, k);
    }
  }

  /** An entry that no visited PT_LOAD segment moves is returned as given. */
  lemma {:induction false} LoadFromEntryKept(m: seq<bv8>, w: Walk, i: nat, entry: nat)
    requires Loadable(m, w, i, entry) && EntryFixed(m, w, i, entry)
    ensures LoadFrom(m, w, i, entry).1 == entry
    decreases w.n - i
  {
    if i < w.n {
      var r := VisitedStep(m, w, i, entry, 0);
      LoadFromEntryKept(r.0, w, i + 1, r.1);
    }
  }

  /**
   * The usual case: header i is a PT_LOAD segment whose virtual range
   * holds the entry, and no later segment moves the translated entry; the
   * walk then returns the entry's physical address, truncated to 32 bits.
   */
  lemma LoadFromEntryTranslated(m: seq<bv8>, w: Walk, i: nat, entry: nat)
    requires Loadable(m, w, i, entry) && i < w.n && PhdrFits(m, w, i)
    requires var ph := PhdrAt(m, w, i);
      && ph.pType == PT_LOAD && ph.pVaddr <= entry < ph.pVaddr + ph.pMemsz
      && SegmentOk(m, w, ph)
      && var r := Step(m, w, ph, entry); EntryFixed(r.0, w, i + 1, r.1)
    ensures var ph := PhdrAt(m, w, i);
      LoadFrom(m, w, i, entry).1 == (ph.pPaddr + (entry - ph.pVaddr)) % U32_LIMIT
  {
    var r := LoadFromStep(m, w, i, entry);
    LoadFromEntryKept(r.0, w, i + 1, r.1);
  }

  /** The entry stays a `uint32_t` value. */
  lemma {:induction false} LoadFromEntryBound(m: seq<bv8>, w: Walk, i: nat, entry: nat)
    requires Loadable(m, w, i, entry) && entry < U32_LIMIT
    ensures LoadFrom(m, w, i, entry).1 < U32_LIMIT
    decreases w.n - i
  {
    if i < w.n {
      var r := VisitedStep(m, w, i, entry, 0);
      LoadFromEntryBound(r.0, w, i + 1, r.1);
    }
  }

  /** `load_elf32` / `load_elf64` return a `uint32_t`. */
  lemma LoadElfEntryBound(m: seq<bv8>, hdr: nat, c: ElfClass)
    requires ElfLoadable(m, hdr, c)
    ensures LoadElfSpec(m, hdr, c).1 < U32_LIMIT
  {
    LoadFromEntryBound(m, HeaderWalk(m, hdr, c), 0, EEntry(m, hdr, c) % U32_LIMIT);
  }
}
