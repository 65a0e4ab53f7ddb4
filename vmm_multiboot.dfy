/**
 * `multiboot_init` of vmm/multiboot.c: the VMM's consumption of the
 * Multiboot boot information (section 3.3 of version 0.6.96 of the
 * Multiboot standard).  It loads the BIOS memory map into the e820 table, takes the guest
 * kernel, its command line and the initrd from the module list, and
 * reserves the VMM's own image in the map.
 *
 * The boot information is handed over as values: the fields read from
 * `struct multiboot_info`, the bytes at `mmap_addr` and the module list at
 * `mods_addr`.  Physical addresses of command-line strings are offsets
 * into the host memory that also holds guest_params' `cmdline` buffer.
 * A panic or a failed BUG_ON stops the VMM; it is the outcome ok == false.
 */
module VmmMultiboot {
  import opened Machine
  import opened E820Map
  import opened MultibootLayout
  import opened Setup
  import opened Types
  import E820
  import E820Sanitize
  import E820Update
  import StringLib

  const MULTIBOOT_BOOTLOADER_MAGIC: u32 := 0x2bad_b002
  const SZ_2M: nat := 0x20_0000

  /** The e820 entries after the memory map's records are appended: what `e820_update_table` then sanitizes. */
  function Loaded(t: seq<Entry>, mmap: seq<u8>, len: u32): seq<Entry>
    requires Walkable(mmap, 0, len)
  {
    E820.AppendAll(t, Records(mmap, 0, len))
  }

  /** The host map with the size bytes at vmmStart retyped from RAM to reserved, as `e820_range_update` leaves it. */
  function ReserveVmm(t: seq<Entry>, vmmStart: u64, size: u64): seq<Entry>
    requires |t| <= E820_MAX_ENTRIES
  {
    E820Update.RangeUpdate(t, vmmStart, size, E820_TYPE_RAM, E820_TYPE_RESERVED).0
  }

  /**
   * Every check of `multiboot_init` passes, given the e820 entries t and
   * the host memory m it starts from: the loader magic, a non-null info
   * block with a memory map that sanitizes, at least one module whose
   * command line fits in CMDLINE_SIZE bytes with its NUL, and a 2 MiB-aligned
   * VMM image that the sanitized map types as RAM throughout.
   */
  ghost predicate Boots(magic: u32, info: Option<Info>, mmap: seq<u8>, mods: seq<ModEntry>, t: seq<Entry>, m: seq<bv8>,
                        vmmStart: u64, vmmEnd: u64)
  {
    && magic == MULTIBOOT_BOOTLOADER_MAGIC && info.Some? && HasMemMap(info.value.flags)
    && Walkable(mmap, 0, info.value.mmapLength)
    && var added := Loaded(t, mmap, info.value.mmapLength);
    && |added| >= 2 && NoWrap(added)
    && info.value.modsCount > 0 && |mods| > 0 && mods[0].cmdline as nat <= |m|
    && StringLib.StrLen(m, mods[0].cmdline) < CMDLINE_SIZE
    && Aligned2M(vmmStart) && Aligned2M(vmmEnd)
    && CoveredAll(E820Sanitize.SanitizedEntries(added), vmmStart, vmmEnd, E820_TYPE_RAM)
  }

  /**
   * `multiboot_init`.  vmmStart and vmmEnd are `__pa(_start)` and
   * `__pa(_end)`, the bounds of the VMM image, which is not empty.  The
   * requires are what the boot loader guarantees and the C code relies
   * on: a walkable memory map, the module entries it reads, and a command
   * line that lies in host memory apart from guest_params.
   */
  method MultibootInit(magic: u32, info: Option<Info>, mmap: seq<u8>, mods: seq<ModEntry>,
                       table: E820.Table, params: GuestParams, vmmStart: u64, vmmEnd: u64) returns (ok: bool)
    requires table.Valid() && params.Valid() && vmmStart < vmmEnd
    requires info.Some? && HasMemMap(info.value.flags) ==> Walkable(mmap, 0, info.value.mmapLength)
    requires info.Some? ==> Min(info.value.modsCount, 2) <= |mods|
    requires info.Some? && info.value.modsCount > 0 ==>
      var src := mods[0].cmdline as nat;
      && src + CMDLINE_SIZE <= params.mem.Length
      && (params.cmdlineAt + CMDLINE_SIZE <= src || src + CMDLINE_SIZE <= params.cmdlineAt)
    modifies table, table.entries, params, params.mem
    ensures table.Valid()
    ensures ok <==> Boots(magic, info, mmap, mods, old(table.Contents()), old(params.mem[..]), vmmStart, vmmEnd)
    ensures ok ==>
      table.Contents() == ReserveVmm(E820Sanitize.SanitizedEntries(Loaded(old(table.Contents()), mmap, info.value.mmapLength)), vmmStart, vmmEnd - vmmStart)
    ensures ok ==> && params.kernelStart == mods[0].modStart as nat && params.kernelEnd == mods[0].modEnd as nat
                   && (info.value.modsCount > 1 ==> params.initrdStart == mods[1].modStart as nat && params.initrdEnd == mods[1].modEnd as nat)
                   && (info.value.modsCount <= 1 ==> params.initrdStart == old(params.initrdStart) && params.initrdEnd == old(params.initrdEnd))
    ensures ok ==> && StringLib.Terminated(params.mem[..], params.cmdlineAt)
                   && StringLib.Str(params.mem[..], params.cmdlineAt) == StringLib.Str(old(params.mem[..]), mods[0].cmdline as nat)
                   && forall k :: 0 <= k < params.mem.Length && !(params.cmdlineAt <= k < params.cmdlineAt + CMDLINE_SIZE) ==>
                        params.mem[k] == old(params.mem[k])
  {
    ghost var t0, m0 := table.Contents(), params.mem[..];
    if magic != MULTIBOOT_BOOTLOADER_MAGIC || info.None? {
      return false;  // BUG_ON
    }
    var mbi := info.value;
    if !HasMemMap(mbi.flags) {
      return false;  // no memory map!
    }
    var panicked := table.RangeAddMultiboot(mmap, mbi.mmapLength);
    if panicked {
      return false;  // e820: fail to sanitize the physical RAM map
    }
    ghost var added := Loaded(t0, mmap, mbi.mmapLength);
    if mbi.modsCount == 0 {
      return false;  // no guest kernel loaded!
    }
    ok := LoadKernel(mbi, mods, params);
    if !ok {
      return;  // kernel cmdline too long!
    }
    if !Aligned2M(vmmStart) || !Aligned2M(vmmEnd) {
      return false;  // BUG_ON
    }
    E820Sanitize.SanitizedEntriesCorrect(added);
    E820Sanitize.SanitizedNoWrap(added);
    var ram := VmmIsRam(table, vmmStart, vmmEnd);
    if !ram {
      return false;  // BUG_ON
    }
    ReserveVmmImage(table, vmmStart, vmmEnd);
  }

  /**
   * The module-list part of `multiboot_init`: the kernel range from module
   * 0, its command line copied with `strscpy`, and the initrd range from
   * module 1 when there is one.
   */
  method LoadKernel(mbi: Info, mods: seq<ModEntry>, params: GuestParams) returns (ok: bool)
    requires params.Valid() && mbi.modsCount > 0 && Min(mbi.modsCount, 2) <= |mods|
    requires var src := mods[0].cmdline as nat;
      && src + CMDLINE_SIZE <= params.mem.Length
      && (params.cmdlineAt + CMDLINE_SIZE <= src || src + CMDLINE_SIZE <= params.cmdlineAt)
    modifies params, params.mem
    ensures ok <==> StringLib.StrLen(old(params.mem[..]), mods[0].cmdline as nat) < CMDLINE_SIZE
    ensures ok ==> && params.kernelStart == mods[0].modStart as nat && params.kernelEnd == mods[0].modEnd as nat
                   && (mbi.modsCount > 1 ==> params.initrdStart == mods[1].modStart as nat && params.initrdEnd == mods[1].modEnd as nat)
                   && (mbi.modsCount <= 1 ==> params.initrdStart == old(params.initrdStart) && params.initrdEnd == old(params.initrdEnd))
    ensures ok ==> && StringLib.Terminated(params.mem[..], params.cmdlineAt)
                   && StringLib.Str(params.mem[..], params.cmdlineAt) == StringLib.Str(old(params.mem[..]), mods[0].cmdline as nat)
                   && forall k :: 0 <= k < params.mem.Length && !(params.cmdlineAt <= k < params.cmdlineAt + CMDLINE_SIZE) ==>
                        params.mem[k] == old(params.mem[k])
  {
    params.kernelStart := mods[0].modStart;
    params.kernelEnd := mods[0].modEnd;
    ok := CopyCmdline(params, mods[0].cmdline as nat);
    if !ok {
      return;  // kernel cmdline too long!
    }
    if mbi.modsCount > 1 {
      params.initrdStart := mods[1].modStart;
      params.initrdEnd := mods[1].modEnd;
    }
  }

  /**
   * `strscpy(guest_params.cmdline, __va(src), sizeof(guest_params.cmdline)) >= 0`:
   * the string at src fits, and the buffer then holds it, terminated.
   */
  method CopyCmdline(params: GuestParams, src: nat) returns (ok: bool)
    requires params.Valid() && src + CMDLINE_SIZE <= params.mem.Length
    requires params.cmdlineAt + CMDLINE_SIZE <= src || src + CMDLINE_SIZE <= params.cmdlineAt
    modifies params.mem
    ensures ok <==> StringLib.StrLen(old(params.mem[..]), src) < CMDLINE_SIZE
    ensures ok ==> && StringLib.Terminated(params.mem[..], params.cmdlineAt)
                   && StringLib.Str(params.mem[..], params.cmdlineAt) == StringLib.Str(old(params.mem[..]), src)
    ensures forall k :: 0 <= k < params.mem.Length && !(params.cmdlineAt <= k < params.cmdlineAt + CMDLINE_SIZE) ==>
              params.mem[k] == old(params.mem[k])
  {
    ghost var m0 := params.mem[..];
    var res := StringLib.StrScpy(params.mem, params.cmdlineAt, src, CMDLINE_SIZE);
    StringLib.ScpyString(m0, params.mem[..], params.cmdlineAt, src, CMDLINE_SIZE, res);
    ok := res >= 0;
  }

  /** `x % SZ_2M == 0`. */
  predicate Aligned2M(x: u64)
  {
    x % SZ_2M as u64 == 0
  }

  /** The RAM check of the "mask out vmm" step: on a sanitized map, `e820_mapped_all` decides coverage exactly. */
  method VmmIsRam(table: E820.Table, vmmStart: u64, vmmEnd: u64) returns (ram: bool)
    requires table.Valid() && vmmStart < vmmEnd && Sanitized(table.Contents()) && NoWrap(table.Contents())
    ensures ram <==> CoveredAll(table.Contents(), vmmStart, vmmEnd, E820_TYPE_RAM)
  {
    ram := table.MappedAll(vmmStart, vmmEnd, E820_TYPE_RAM);
  }

  /** The retyping of the "mask out vmm" step: `e820_range_update(_start, _end - _start, RAM, RESERVED)`. */
  method ReserveVmmImage(table: E820.Table, vmmStart: u64, vmmEnd: u64)
    requires table.Valid() && vmmStart < vmmEnd
    modifies table, table.entries
    ensures table.Valid()
    ensures table.Contents() == ReserveVmm(old(table.Contents()), vmmStart, vmmEnd - vmmStart)
  {
    var _ := table.RangeUpdate(vmmStart, vmmEnd - vmmStart, E820_TYPE_RAM, E820_TYPE_RESERVED);
  }

  // ---------------------------------------------------------------------
  // What the retyping does to the VMM image's addresses.

  lemma {:induction false} RetypedKindsUncovered(t: seq<Entry>, u: E820Update.Update, x: int)
    requires forall j :: 0 <= j < |t| ==> !Covers(t[j], x)
    ensures E820Update.RetypedKinds(t, u, x) == {}
  {
    if |t| > 0 {
      RetypedKindsUncovered(t[..|t| - 1], u, x);
    }
  }

  /** On a disjoint table, the retyped kinds at x are those of the one entry covering x. */
  lemma {:induction false} RetypedKindsUnique(t: seq<Entry>, i: nat, u: E820Update.Update, x: int)
    requires Ascending(t) && i < |t| && Covers(t[i], x)
    ensures E820Update.RetypedKinds(t, u, x) == {E820Update.RetypedKind(t[i], u, x)}
  {
    var p := t[..|t| - 1];
    if i < |t| - 1 {
      assert End(t[i]) <= t[|t| - 1].addr;
      assert Ascending(p);
      RetypedKindsUnique(p, i, u, x);
    } else {
      forall j | 0 <= j < |p|
        ensures !Covers(p[j], x)
      {
        assert End(t[j]) <= t[i].addr;
      }
      RetypedKindsUncovered(p, u, x);
    }
  }

  /**
   * Retyping a range that a disjoint map gives the old type throughout
   * leaves every address of the range with the new type and no other,
   * while the table has room for the pieces the update appends.
   */
  lemma RetypedRange(t: seq<Entry>, start: u64, size: u64, oldType: u32, newType: u32, x: int)
    requires Sanitized(t) && NoWrap(t) && |t| <= E820_MAX_ENTRIES && 0 < oldType != newType && start + size < U64_LIMIT
    requires CoveredAll(t, start, start + size, oldType)
    requires |E820Update.RangeUpdate(t, start, size, oldType, newType).0| < E820_MAX_ENTRIES
    requires start <= x < start + size
    ensures E820Update.KindsAt(E820Update.RangeUpdate(t, start, size, oldType, newType).0, x) == {newType}
  {
    var u := E820Update.MakeUpdate(start, size, oldType, newType);
    E820Update.RangeUpdateCoverage(t, start, size, oldType, newType, x);
    assert CoveredAt(t, x, oldType);
    var i :| 0 <= i < |t| && t[i].kind == oldType && Covers(t[i], x);
    RetypedKindsUnique(t, i, u, x);
  }

  /**
   * After the VMM image [vmmStart, vmmStart + size) is reserved in a
   * sanitized map that typed it as RAM, every address of the image has the
   * reserved type and no other, so the guest can never be given VMM memory.
   */
  lemma VmmRangeReserved(t: seq<Entry>, vmmStart: u64, size: u64, x: int)
    requires Sanitized(t) && NoWrap(t) && |t| <= E820_MAX_ENTRIES && vmmStart + size < U64_LIMIT
    requires CoveredAll(t, vmmStart, vmmStart + size, E820_TYPE_RAM)
    requires |ReserveVmm(t, vmmStart, size)| < E820_MAX_ENTRIES
    requires vmmStart <= x < vmmStart + size
    ensures E820Update.KindsAt(ReserveVmm(t, vmmStart, size), x) == {E820_TYPE_RESERVED}
  {
    RetypedRange(t, vmmStart, size, E820_TYPE_RAM, E820_TYPE_RESERVED, x);
  }
}
