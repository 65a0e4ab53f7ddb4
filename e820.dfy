/**
 * The global E820 table of kernel/e820.c (`struct e820_table`: 128 entry
 * slots and the count in use) and the operations that change or query it
 * in place. Each method is proved against the functions of E820Map,
 * E820Sanitize and E820Update, whose lemmas state what the operations
 * achieve.
 */
module E820 {
  import opened Machine
  import opened Types
  import opened Mmu
  import opened E820Map
  import opened E820Sanitize
  import opened E820Update
  import opened MultibootLayout

  /** `struct e820_table`. */
  class Table {
    var entries: array<Entry>
    var nrEntries: nat

    ghost predicate Valid()
      reads this
    {
      entries.Length == E820_MAX_ENTRIES && nrEntries <= E820_MAX_ENTRIES
    }

    /** The entries in use. */
    function Contents(): seq<Entry>
      reads this, entries
      requires Valid()
    {
      entries[..nrEntries]
    }

    constructor ()
      ensures Valid() && Contents() == [] && fresh(entries)
    {
      entries := new Entry[E820_MAX_ENTRIES](_ => Entry(0, 0, 0));
      nrEntries := 0;
    }

    /** `__e820_range_add`: store the entry in the next free slot, or ignore it when all 128 are used. */
    method RangeAdd(start: u64, size: u64, kind: u32)
      requires Valid()
      modifies this, entries
      ensures Valid() && entries == old(entries)
      ensures Contents() == Append(old(Contents()), Entry(start, size, kind))
      ensures old(nrEntries) >= E820_MAX_ENTRIES ==> nrEntries == old(nrEntries) && entries[..] == old(entries[..])
      ensures old(nrEntries) < E820_MAX_ENTRIES ==>
        nrEntries == old(nrEntries) + 1 && entries[..] == old(entries[..])[old(nrEntries) := Entry(start, size, kind)]
    {
      if nrEntries >= E820_MAX_ENTRIES {
        return;
      }
      entries[nrEntries] := Entry(start, size, kind);
      nrEntries := nrEntries + 1;
    }

    /**
     * `__e820_update_table`: -1 with nothing changed when fewer than two
     * entries are in use or one of them wraps; otherwise 0, with the
     * sanitized map copied over the first slots.
     */
    method UpdateTable() returns (r: int)
      requires Valid()
      modifies this, entries
      ensures Valid() && entries == old(entries)
      ensures r == -1 || r == 0
      ensures r == -1 <==> old(nrEntries) < 2 || !NoWrap(old(Contents()))
      ensures r == -1 ==> nrEntries == old(nrEntries) && entries[..] == old(entries[..])
      ensures r == 0 ==> NoWrap(old(Contents())) && Contents() == SanitizedEntries(old(Contents()))
      ensures r == 0 ==> entries[nrEntries..] == old(entries[..])[nrEntries..]
    {
      if nrEntries < 2 {
        return -1;
      }
      var wraps := AnyWraps(entries, nrEntries);
      if wraps {
        return -1;
      }
      var t := Contents();
      var cp, chgNr := RecordChangePoints(entries, nrEntries);
      assert cp[..chgNr] == ChangePoints(t, |t|);
      var s := SortChangePoints(t, cp[..chgNr]);
      assert SortedPoints(t, s);
      var newEntries, newNr := SweepChangePoints(entries, nrEntries, s);
      assert newEntries[..newNr] == SanitizedEntries(t);
      CopyBack(newEntries, newNr);
      return 0;
    }

    /** The memcpy of new_entries over the first newNr slots, and the new count. */
    method CopyBack(newEntries: array<Entry>, newNr: nat)
      requires Valid() && newNr <= newEntries.Length && newNr <= E820_MAX_ENTRIES && newEntries != entries
      modifies this, entries
      ensures Valid() && entries == old(entries)
      ensures Contents() == newEntries[..newNr]
      ensures entries[newNr..] == old(entries[newNr..])
    {
      var i := 0;
      while i < newNr
        invariant Valid() && entries == old(entries) && i <= newNr
        invariant entries[..i] == newEntries[..i]
        invariant entries[newNr..] == old(entries[newNr..])
      {
        entries[i] := newEntries[i];
        i := i + 1;
      }
      nrEntries := newNr;
    }

    /** `e820_update_table`: panics when `__e820_update_table` fails. */
    method UpdateTableOrPanic() returns (panicked: bool)
      requires Valid()
      modifies this, entries
      ensures Valid() && entries == old(entries)
      ensures panicked <==> old(nrEntries) < 2 || !NoWrap(old(Contents()))
      ensures panicked ==> Contents() == old(Contents())
      ensures !panicked ==> NoWrap(old(Contents())) && Contents() == SanitizedEntries(old(Contents()))
    {
      var r := UpdateTable();
      panicked := r != 0;
    }

    /**
     * The loop body of `__e820_range_update` for slot i, with the clamped
     * range of u: retype, split or trim the entry, appending pieces with
     * `__e820_range_add`; d is what it adds to `real_updated_size`.
     */
    method UpdateSlot(i: nat, u: Update) returns (d: u64)
      requires Valid() && i < nrEntries && ValidUpdate(u)
      modifies this, entries
      ensures Valid() && entries == old(entries)
      ensures (Contents(), d) == UpdateEntry(old(Contents()), i, u)
    {
      ghost var t := Contents();
      var e := entries[i];
      assert e == t[i];
      if e.kind != u.oldType {
        return 0;
      }
      var entryEnd := (e.addr + e.size) % U64_LIMIT;
      if e.addr >= u.start && entryEnd <= u.end {
        entries[i] := e.(kind := u.newType);
        assert Contents() == t[i := e.(kind := u.newType)];
        return e.size;
      }
      if e.addr < u.start && entryEnd > u.end {
        d := SplitSlot(i, u);
        return;
      }
      d := TrimSlot(i, u);
    }

    /** The case of UpdateSlot where the entry strictly contains the range: split it in three. */
    method SplitSlot(i: nat, u: Update) returns (d: u64)
      requires Valid() && i < nrEntries && ValidUpdate(u)
      requires entries[i].kind == u.oldType && entries[i].addr < u.start && (entries[i].addr + entries[i].size) % U64_LIMIT > u.end
      modifies this, entries
      ensures Valid() && entries == old(entries)
      ensures (Contents(), d) == UpdateEntry(old(Contents()), i, u)
    {
      ghost var t := Contents();
      var e := entries[i];
      assert e == t[i];
      var entryEnd := (e.addr + e.size) % U64_LIMIT;
      RangeAdd(u.start, u.size, u.newType);
      RangeAdd(u.end, entryEnd - u.end, e.kind);
      ghost var t2 := Contents();
      assert t2[i] == e;
      entries[i] := entries[i].(size := u.start - e.addr);
      assert Contents() == t2[i := e.(size := u.start - e.addr)];
      return u.size;
    }

    /** The case of UpdateSlot where the range overlaps one end of the entry: trim it and add the overlap. */
    method TrimSlot(i: nat, u: Update) returns (d: u64)
      requires Valid() && i < nrEntries && ValidUpdate(u) && entries[i].kind == u.oldType
      requires !(entries[i].addr >= u.start && (entries[i].addr + entries[i].size) % U64_LIMIT <= u.end)
      requires !(entries[i].addr < u.start && (entries[i].addr + entries[i].size) % U64_LIMIT > u.end)
      modifies this, entries
      ensures Valid() && entries == old(entries)
      ensures (Contents(), d) == UpdateEntry(old(Contents()), i, u)
    {
      ghost var t := Contents();
      var e := entries[i];
      assert e == t[i];
      var entryEnd := (e.addr + e.size) % U64_LIMIT;
      var finalStart := Max(u.start, e.addr);
      var finalEnd := Min(u.end, entryEnd);
      if finalStart >= finalEnd {
        return 0;
      }
      RangeAdd(finalStart, finalEnd - finalStart, u.newType);
      ghost var t1 := Contents();
      assert t1[i] == e;
      d := finalEnd - finalStart;
      var size := (entries[i].size - (finalEnd - finalStart)) % U64_LIMIT;
      entries[i] := entries[i].(size := size);
      if e.addr < finalStart {
        assert Contents() == t1[i := e.(size := size)];
        return;
      }
      entries[i] := entries[i].(addr := finalEnd);
      assert Contents() == t1[i := e.(size := size, addr := finalEnd)];
    }

    /**
     * `__e820_range_update`: retype the old-type parts of [start, start +
     * size) to newType, visiting slots appended on the way, and return the
     * number of bytes retyped.
     */
    method RangeUpdate(start: u64, size: u64, oldType: u32, newType: u32) returns (updated: u64)
      requires Valid() && oldType != newType
      modifies this, entries
      ensures Valid() && entries == old(entries)
      ensures (Contents(), updated) == E820Update.RangeUpdate(old(Contents()), start, size, oldType, newType)
    {
      var clamped := ClampSize(start, size);
      var end := start + clamped;
      var u := Update(start, clamped, end, oldType, newType);
      assert u == MakeUpdate(start, size, oldType, newType);
      updated := 0;
      ghost var target := UpdateFrom(Contents(), 0, u, 0);
      var i := 0;
      while i < nrEntries
        invariant Valid() && entries == old(entries)
        invariant i <= nrEntries
        invariant UpdateFrom(Contents(), i, u, updated) == target
        decreases E820_MAX_ENTRIES - i
      {
        updated := UpdateStep(i, u, updated, target);
        i := i + 1;
      }
    }

    /** One iteration of `__e820_range_update`'s loop: slot i updated, its bytes added to acc. */
    method UpdateStep(i: nat, u: Update, acc: u64, ghost target: (seq<Entry>, u64)) returns (acc': u64)
      requires Valid() && i < nrEntries && ValidUpdate(u)
      requires UpdateFrom(Contents(), i, u, acc) == target
      modifies this, entries
      ensures Valid() && entries == old(entries) && i < nrEntries
      ensures UpdateFrom(Contents(), i + 1, u, acc') == target
    {
      ghost var t := Contents();
      ghost var r := UpdateEntry(t, i, u);
      UpdateFromStep(t, i, u, acc);
      var d := UpdateSlot(i, u);
      assert Contents() == r.0 && d == r.1;
      acc' := (acc + d) % U64_LIMIT;
    }

    /**
     * `e820_mapped_all`: scan the entries of `kind` (0 for any) in order,
     * moving start past each entry that begins at or before it.
     */
    method MappedAll(start: u64, end: u64, kind: u32) returns (r: bool)
      requires Valid()
      ensures r ==> CoveredAll(Contents(), start, end, kind)
      ensures Ascending(Contents()) && NoWrap(Contents()) && start < end && CoveredAll(Contents(), start, end, kind) ==> r
    {
      ghost var t := Contents();
      ghost var complete := Ascending(t) && NoWrap(t) && start < end && CoveredAll(t, start, end, kind);
      var s := start;
      var i := 0;
      if complete {
        forall x: int | start <= x < end ensures CoveredFrom(t, 0, x, kind) {
          assert CoveredAt(t, x, kind);
        }
      }
      while i < nrEntries
        invariant i <= nrEntries
        invariant CoveredAll(t, start, s, kind)
        invariant complete ==> s < end && forall x: int :: s <= x < end ==> CoveredFrom(t, i, x, kind)
        invariant complete ==> CoveredFrom(t, i, s, kind)
      {
        var e := entries[i];
        assert e == t[i];
        ghost var s0 := s;
        if (kind == 0 || e.kind == kind) && !(e.addr >= end || (e.addr + e.size) % U64_LIMIT <= s) {
          if e.addr <= s {
            MoveStart(t, i, start, s, kind);
            s := (e.addr + e.size) % U64_LIMIT;
          }
          if s >= end {
            return true;
          }
        }
        if complete {
          CoverageStep(t, i, i + 1, s0, end, kind);
          assert s == NextStart(e, s0, end, kind);
        }
        i := i + 1;
      }
      return false;
    }

    /**
     * `e820_end_pfn`: the largest end pfn of the entries of `kind` that
     * start below limitPfn, limitPfn itself when one of them ends above it,
     * capped at MAXMEM_PFN.
     */
    method EndPfn(limitPfn: u64, kind: u32) returns (r: u64)
      requires Valid()
      ensures r == Min(LastPfn(Contents(), limitPfn, kind), MAXMEM_PFN as int)
    {
      ghost var t := Contents();
      var lastPfn: u64 := 0;
      MaxmemPfnValue();
      var maxArchPfn: u64 := 0x4_0000_0000;
      var i := 0;
      while i < nrEntries
        invariant i <= nrEntries
        invariant lastPfn == LastPfn(t[..i], limitPfn, kind)
      {
        var e := entries[i];
        assert e == t[i];
        LastPfnStep(t, i, limitPfn, kind);
        ghost var c := PfnContribution(e, limitPfn, kind);
        if e.kind == kind {
          var startPfn := StartPfn(e);
          var endPfn := E820Map.EndPfn(e);
          if startPfn < limitPfn {
            if endPfn > limitPfn {
              LastPfnReachesLimit(t, limitPfn, kind, i);
              lastPfn := limitPfn;
              break;
            }
            assert c == endPfn;
            if endPfn > lastPfn {
              lastPfn := endPfn;
            }
          } else {
            assert c == 0;
          }
        } else {
          assert c == 0;
        }
        i := i + 1;
      }
      if i == nrEntries {
        assert t[..i] == t;
      }
      if lastPfn > maxArchPfn {
        lastPfn := maxArchPfn;
      }
      return lastPfn;
    }

    /** `e820_end_of_ram_pfn`: `e820_end_pfn(MAXMEM_PFN, E820_TYPE_RAM)`. */
    method EndOfRamPfn() returns (r: u64)
      requires Valid()
      ensures r == Min(LastPfn(Contents(), MAXMEM_PFN as int, E820_TYPE_RAM), MAXMEM_PFN as int)
      ensures r <= MAXMEM_PFN as int
    {
      r := EndPfn(MAXMEM_PFN as int, E820_TYPE_RAM);
    }

    /**
     * `e820_range_add_multiboot`: add every record of the Multiboot memory
     * map of len bytes at mem[0..], advancing by each record's size + 4,
     * then sanitize (panicking on failure).
     */
    method RangeAddMultiboot(mem: seq<u8>, len: u64) returns (panicked: bool)
      requires Valid() && Walkable(mem, 0, len)
      modifies this, entries
      ensures Valid() && entries == old(entries)
      ensures var added := AppendAll(old(Contents()), Records(mem, 0, len));
        && (panicked <==> |added| < 2 || !NoWrap(added))
        && (panicked ==> Contents() == added)
        && (!panicked ==> NoWrap(added) && Contents() == SanitizedEntries(added))
    {
      ghost var added := AppendAll(Contents(), Records(mem, 0, len));
      var i: nat := 0;
      while i < len
        invariant Valid() && entries == old(entries)
        invariant Walkable(mem, i, len)
        invariant AppendAll(Contents(), Records(mem, i, len)) == added
        decreases len - i
      {
        i := AddRecord(mem, i, len, added);
      }
      assert Contents() == added;
      panicked := UpdateTableOrPanic();
    }

    /** One iteration of `e820_range_add_multiboot`'s walk: add the record at offset i and step over it. */
    method AddRecord(mem: seq<u8>, i: nat, len: u64, ghost added: seq<Entry>) returns (i': nat)
      requires Valid() && Walkable(mem, i, len) && i < len
      requires AppendAll(Contents(), Records(mem, i, len)) == added
      modifies this, entries
      ensures Valid() && entries == old(entries) && i' > i
      ensures Walkable(mem, i', len) && AppendAll(Contents(), Records(mem, i', len)) == added
    {
      AddRecordStep(Contents(), mem, i, len);
      var e := DecodeMmapEntry(mem[i..]);
      RangeAdd(e.addr, e.len, e.kind);
      i' := i + e.size + 4;
    }
  }

  /** The records' entries appended one by one, as e820_range_add does. */
  function AppendAll(t: seq<Entry>, ms: seq<MmapEntry>): (r: seq<Entry>)
    ensures |r| == Min(|t| + |ms|, Max(|t|, E820_MAX_ENTRIES))
    decreases |ms|
  {
    if |ms| == 0 then t
    else AppendAll(Append(t, Entry(ms[0].addr, ms[0].len, ms[0].kind)), ms[1..])
  }

  /** One record of the walk: it is appended, and the walk goes on size + 4 bytes further. */
  lemma AddRecordStep(t: seq<Entry>, mem: seq<u8>, i: nat, len: nat)
    requires Walkable(mem, i, len) && i < len
    ensures i + MMAP_ENTRY_BYTES <= |mem|
    ensures var m := DecodeMmapEntry(mem[i..]);
      Walkable(mem, i + m.size + 4, len) &&
      AppendAll(t, Records(mem, i, len)) == AppendAll(Append(t, Entry(m.addr, m.len, m.kind)), Records(mem, i + m.size + 4, len))
  {
    var m := DecodeMmapEntry(mem[i..]);
    var rs := Records(mem, i + m.size + 4, len);
    assert Records(mem, i, len) == [m] + rs;
    assert ([m] + rs)[1..] == rs;
  }

  /** Some entry of `kind` at index i or later covers x. */
  ghost predicate CoveredFrom(t: seq<Entry>, i: nat, x: int, kind: u32)
  {
    exists j :: i <= j < |t| && (kind == 0 || t[j].kind == kind) && Covers(t[j], x)
  }

  /** Moving start to the end of a matching entry that begins at or before it keeps [start0, start) covered. */
  lemma MoveStart(t: seq<Entry>, i: nat, start0: int, s: int, kind: u32)
    requires i < |t| && (kind == 0 || t[i].kind == kind) && t[i].addr <= s
    requires CoveredAll(t, start0, s, kind)
    ensures CoveredAll(t, start0, (t[i].addr + t[i].size) % U64_LIMIT, kind)
  {
    var s' := (t[i].addr + t[i].size) % U64_LIMIT;
    forall x: int | start0 <= x < s' ensures CoveredAt(t, x, kind) {
      if x >= s {
        assert Covers(t[i], x);
      }
    }
  }

  /** Where e820_mapped_all's start moves after entry e, when it does not return. */
  function NextStart(e: Entry, s: int, end: int, kind: u32): int
  {
    if (kind == 0 || e.kind == kind) && !(e.addr >= end || (e.addr + e.size) % U64_LIMIT <= s) && e.addr <= s
    then (e.addr + e.size) % U64_LIMIT
    else s
  }

  /**
   * On an ascending map, if every address of [s, end) is covered by entry
   * i or a later one, then every address from the next start on is covered
   * by a later one.
   */
  lemma CoverageStep(t: seq<Entry>, i: nat, next: nat, s: int, end: int, kind: u32)
    requires Ascending(t) && NoWrap(t) && i < |t| && next == i + 1 && s < end
    requires forall x: int :: s <= x < end ==> CoveredFrom(t, i, x, kind)
    ensures forall x: int :: NextStart(t[i], s, end, kind) <= x < end ==> CoveredFrom(t, next, x, kind)
  {
    var e := t[i];
    var s' := NextStart(e, s, end, kind);
    NoGapBefore(t, i, s, kind);
    forall x: int | s' <= x < end ensures CoveredFrom(t, next, x, kind) {
      assert CoveredFrom(t, i, x, kind);
      var j :| i <= j < |t| && (kind == 0 || t[j].kind == kind) && Covers(t[j], x);
      assert j != i;
    }
  }

  /** On an ascending map, no entry from index i on covers an address below t[i].addr. */
  lemma NoGapBefore(t: seq<Entry>, i: nat, s: int, kind: u32)
    requires Ascending(t) && i < |t|
    ensures s < t[i].addr ==> !CoveredFrom(t, i, s, kind)
  {
    if s < t[i].addr {
      forall j | i <= j < |t| ensures !Covers(t[j], s) {
        if j > i {
          assert End(t[i]) <= t[j].addr;
        }
      }
    }
  }

  lemma LastPfnReachesLimit(t: seq<Entry>, limit: int, kind: u32, i: nat)
    requires i < |t| && t[i].kind == kind && StartPfn(t[i]) < limit < E820Map.EndPfn(t[i])
    ensures LastPfn(t, limit, kind) == limit
  {
    LastPfnIsMax(t, limit, kind);
  }

  /** Sanitize's bail-out loop: some entry's addr + size overflows 64 bits. */
  method AnyWraps(entries: array<Entry>, nr: nat) returns (r: bool)
    requires nr <= entries.Length
    ensures r <==> !NoWrap(entries[..nr])
  {
    var i := 0;
    while i < nr
      invariant i <= nr
      invariant NoWrap(entries[..i])
    {
      if (entries[i].addr + entries[i].size) % U64_LIMIT < entries[i].addr {
        assert Wraps(entries[..nr][i]);
        return true;
      }
      assert entries[..i + 1] == entries[..i] + [entries[i]];
      i := i + 1;
    }
    assert entries[..i] == entries[..nr];
    return false;
  }

  /** Sanitize's recording loop: two change points per non-empty entry, in entry order. */
  method RecordChangePoints(entries: array<Entry>, nr: nat) returns (cp: array<ChangeMember>, chgNr: nat)
    requires nr <= E820_MAX_ENTRIES && nr <= entries.Length && NoWrap(entries[..nr])
    ensures fresh(cp) && cp.Length == 2 * E820_MAX_ENTRIES
    ensures chgNr <= cp.Length && cp[..chgNr] == ChangePoints(entries[..nr], nr)
  {
    ghost var t := entries[..nr];
    cp := new ChangeMember[2 * E820_MAX_ENTRIES](_ => ChangeMember(0, 0));
    chgNr := 0;
    var i := 0;
    while i < nr
      invariant i <= nr && chgNr <= 2 * i
      invariant cp[..chgNr] == ChangePoints(t, i)
    {
      assert entries[i] == t[i];
      if entries[i].size != 0 {
        cp[chgNr] := ChangeMember(i, entries[i].addr);
        chgNr := chgNr + 1;
        cp[chgNr] := ChangeMember(i, entries[i].addr + entries[i].size);
        chgNr := chgNr + 1;
      }
      i := i + 1;
    }
  }

  /** The largest type among the entries the overlap list names. */
  method CurrentType(entries: array<Entry>, nr: nat, overlap: array<nat>, ovNr: nat) returns (cur: u32)
    requires nr <= entries.Length && ovNr <= overlap.Length
    requires forall j :: 0 <= j < ovNr ==> overlap[j] < nr
    ensures cur == OverlapType(entries[..nr], overlap[..ovNr])
  {
    ghost var t := entries[..nr];
    cur := 0;
    var i := 0;
    while i < ovNr
      invariant i <= ovNr
      invariant cur == OverlapType(t, overlap[..i])
    {
      assert overlap[..i + 1][..i] == overlap[..i];
      assert entries[overlap[i]] == t[overlap[i]];
      if entries[overlap[i]].kind > cur {
        cur := entries[overlap[i]].kind;
      }
      i := i + 1;
    }
    assert overlap[..i] == overlap[..ovNr];
  }

  /** The removal loop: every slot holding e is overwritten with the last slot. */
  method RemoveFromOverlap(overlap: array<nat>, ovNr: nat, e: nat)
    requires 0 < ovNr <= overlap.Length
    modifies overlap
    ensures overlap[..ovNr - 1] == RemoveOverlap(old(overlap[..ovNr]), e)
    ensures overlap[ovNr..] == old(overlap[ovNr..])
  {
    var i := 0;
    while i < ovNr
      invariant i <= ovNr
      invariant SwapScan(overlap[..ovNr], e, i) == SwapScan(old(overlap[..ovNr]), e, 0)
      invariant overlap[ovNr..] == old(overlap[ovNr..])
    {
      if overlap[i] == e {
        overlap[i] := overlap[ovNr - 1];
      }
      i := i + 1;
    }
    assert SwapScan(overlap[..ovNr], e, ovNr) == overlap[..ovNr];
  }

  /** The overlap-list update for change point c: append a starting entry, remove an ending one. */
  method AdvanceOverlap(entries: array<Entry>, nr: nat, overlap: array<nat>, ovNr: nat, c: ChangeMember) returns (ovNr': nat)
    requires nr <= entries.Length && ovNr <= overlap.Length && c.entry < nr
    requires c.addr == entries[c.entry].addr ==> ovNr < overlap.Length
    requires c.addr != entries[c.entry].addr ==> c.entry in overlap[..ovNr]
    modifies overlap
    ensures ovNr' <= overlap.Length
    ensures overlap[..ovNr'] == NextOverlap(entries[..nr], old(overlap[..ovNr]), c)
  {
    assert entries[c.entry] == entries[..nr][c.entry];
    if c.addr == entries[c.entry].addr {
      overlap[ovNr] := c.entry;
      ovNr' := ovNr + 1;
      assert overlap[..ovNr'] == old(overlap[..ovNr]) + [c.entry];
    } else {
      RemoveFromOverlap(overlap, ovNr, c.entry);
      ovNr' := ovNr - 1;
    }
  }

  /**
   * The emitting half of a sweep step on new_entries: close the open entry
   * at addr when the type changes (counting it only when its size is not
   * zero), and open a new one when cur is a type.
   */
  method EmitChange(newEntries: array<Entry>, newNr: nat, lastType: u32, lastAddr: u64, cur: u32, addr: u64, ghost st: Sweep)
      returns (newNr': nat, lastType': u32, lastAddr': u64)
    requires newEntries.Length == E820_MAX_ENTRIES && newNr < E820_MAX_ENTRIES
    requires st.out == newEntries[..newNr] && st.lastType == lastType && st.lastAddr == lastAddr && !st.full
    requires lastType != 0 ==> newEntries[newNr].addr == lastAddr && newEntries[newNr].kind == lastType
    modifies newEntries
    ensures newNr' <= E820_MAX_ENTRIES
    ensures Emit(st, cur, addr) == Sweep(st.overlap, newEntries[..newNr'], lastType', lastAddr', newNr' == E820_MAX_ENTRIES)
    ensures newNr' < E820_MAX_ENTRIES && lastType' != 0 ==> newEntries[newNr'].addr == lastAddr' && newEntries[newNr'].kind == lastType'
  {
    newNr', lastType', lastAddr' := newNr, lastType, lastAddr;
    if cur != lastType {
      if lastType != 0 {
        newEntries[newNr] := newEntries[newNr].(size := (addr - lastAddr) % U64_LIMIT);
        if newEntries[newNr].size != 0 {
          assert newEntries[..newNr + 1] == st.out + [Entry(lastAddr, (addr - lastAddr) % U64_LIMIT, lastType)];
          newNr' := newNr + 1;
          if newNr' >= E820_MAX_ENTRIES {
            return;
          }
        }
      }
      if cur != 0 {
        newEntries[newNr'] := newEntries[newNr'].(addr := addr, kind := cur);
        lastAddr' := addr;
      }
      lastType' := cur;
    }
  }

  /**
   * One iteration of sanitize's main loop, for change point c, whose effect
   * on the sweep state st is the emission step after the overlap list
   * becomes ov'.
   */
  method SweepOne(entries: array<Entry>, nr: nat, c: ChangeMember,
                  overlap: array<nat>, ovNr: nat, newEntries: array<Entry>, newNr: nat, lastType: u32, lastAddr: u64,
                  ghost st: Sweep, ghost ov': seq<nat>)
      returns (ovNr': nat, newNr': nat, lastType': u32, lastAddr': u64)
    requires nr <= E820_MAX_ENTRIES && nr <= entries.Length && c.entry < nr
    requires overlap.Length == E820_MAX_ENTRIES && newEntries.Length == E820_MAX_ENTRIES && newEntries != entries
    requires ovNr <= E820_MAX_ENTRIES && newNr < E820_MAX_ENTRIES
    requires st == Sweep(overlap[..ovNr], newEntries[..newNr], lastType, lastAddr, false)
    requires |ov'| <= nr && forall j :: 0 <= j < |ov'| ==> ov'[j] < nr
    requires ov' == NextOverlap(entries[..nr], st.overlap, c)
    requires c.addr != entries[c.entry].addr ==> c.entry in st.overlap
    requires lastType != 0 ==> newEntries[newNr].addr == lastAddr && newEntries[newNr].kind == lastType
    modifies overlap, newEntries
    ensures ovNr' <= E820_MAX_ENTRIES && newNr' <= E820_MAX_ENTRIES
    ensures Emit(st.(overlap := ov'), OverlapType(entries[..nr], ov'), c.addr) ==
      Sweep(overlap[..ovNr'], newEntries[..newNr'], lastType', lastAddr', newNr' == E820_MAX_ENTRIES)
    ensures newNr' < E820_MAX_ENTRIES && lastType' != 0 ==> newEntries[newNr'].addr == lastAddr' && newEntries[newNr'].kind == lastType'
  {
    var cur;
    ovNr', cur := OverlapOne(entries, nr, overlap, ovNr, c, ov');
    newNr', lastType', lastAddr' := EmitChange(newEntries, newNr, lastType, lastAddr, cur, c.addr, st.(overlap := ov'));
  }

  /** The overlap half of a sweep step: the new overlap list for c and the highest type it holds. */
  method OverlapOne(entries: array<Entry>, nr: nat, overlap: array<nat>, ovNr: nat, c: ChangeMember, ghost ov': seq<nat>)
      returns (ovNr': nat, cur: u32)
    requires nr <= E820_MAX_ENTRIES && nr <= entries.Length && overlap.Length == E820_MAX_ENTRIES
    requires ovNr <= overlap.Length && c.entry < nr
    requires |ov'| <= nr && forall j :: 0 <= j < |ov'| ==> ov'[j] < nr
    requires ov' == NextOverlap(entries[..nr], overlap[..ovNr], c)
    requires c.addr != entries[c.entry].addr ==> c.entry in overlap[..ovNr]
    modifies overlap
    ensures ovNr' <= overlap.Length && overlap[..ovNr'] == ov' && cur == OverlapType(entries[..nr], ov')
  {
    assert entries[c.entry] == entries[..nr][c.entry];
    if c.addr == entries[c.entry].addr {
      assert |ov'| == ovNr + 1;
    }
    ovNr' := AdvanceOverlap(entries, nr, overlap, ovNr, c);
    forall j | 0 <= j < ovNr' ensures overlap[j] < nr {
      assert overlap[j] == ov'[j];
    }
    cur := CurrentType(entries, nr, overlap, ovNr');
  }

  /**
   * Sanitize's main loop over the sorted change points: keep the overlap
   * list, and emit an entry to new_entries whenever the highest overlapping
   * type changes, stopping when 128 entries are emitted.
   */
  method SweepChangePoints(entries: array<Entry>, nr: nat, s: seq<ChangeMember>)
      returns (newEntries: array<Entry>, newNr: nat)
    requires nr <= E820_MAX_ENTRIES && nr <= entries.Length
    requires SortedPoints(entries[..nr], s)
    ensures fresh(newEntries) && newEntries.Length == E820_MAX_ENTRIES && newNr <= E820_MAX_ENTRIES
    ensures newEntries[..newNr] == SweepPoints(entries[..nr], s).out
  {
    var overlap := new nat[E820_MAX_ENTRIES](_ => 0);
    newEntries := new Entry[E820_MAX_ENTRIES](_ => Entry(0, 0, 0));
    var ovNr: nat := 0;
    newNr := 0;
    var lastType: u32 := 0;
    var lastAddr: u64 := 0;
    var k := 0;
    assert s[..0] == [];
    while k < |s|
      invariant k <= |s| && ovNr <= E820_MAX_ENTRIES && newNr < E820_MAX_ENTRIES
      invariant SweepPoints(entries[..nr], s[..k]) == Sweep(overlap[..ovNr], newEntries[..newNr], lastType, lastAddr, false)
      invariant lastType != 0 ==> newEntries[newNr].addr == lastAddr && newEntries[newNr].kind == lastType
    {
      ghost var st := SweepPoints(entries[..nr], s[..k]);
      ghost var ov' := SweepStepFacts(entries[..nr], s, k);
      ovNr, newNr, lastType, lastAddr :=
        SweepOne(entries, nr, s[k], overlap, ovNr, newEntries, newNr, lastType, lastAddr, st, ov');
      if newNr >= E820_MAX_ENTRIES {
        FullPersists(entries[..nr], s, k + 1, |s|);
        assert s[..|s|] == s;
        return;
      }
      k := k + 1;
    }
    assert s[..k] == s;
  }
}
