/**
 * The kernel's ACPI table discovery (`kernel/acpi.c`): parsing the
 * RSDT/XSDT into the 128-slot `initial_tables` array, looking a table up by
 * signature, and walking the variable-length subtables of a table such as
 * the MADT (section 5.2.12 of the ACPI standard). Table pointers are physical
 * addresses, NULL is 0.
 */
module Acpi {
  import opened Machine
  import opened AcTypes
  import opened TbPrint

  const ACPI_MAX_TABLES: nat := 128
  const RSDT_ENTRY_SIZE: nat := 4
  const XSDT_ENTRY_SIZE: nat := 8
  /** `sizeof(struct acpi_subtable_header)`: a type byte and a length byte. */
  const SUBTABLE_HEADER_SIZE: nat := 2
  /** `ENODEV`, "no such device". */
  const ENODEV: int := 19

  // ---------------------------------------------------------------------
  // The root table

  /**
   * `acpi_tb_get_root_table_entry`: a 32-bit little-endian address for the
   * RSDT's 4-byte entries, a 64-bit one for any other entry size.
   */
  function GetRootTableEntry(mem: seq<u8>, entry: nat, size: nat): u64
  {
    var width := if size == RSDT_ENTRY_SIZE then 4 else 8;
    Pow256Widths();
    LittleEndian(Bytes(mem, entry, width))
  }

  /** The entry is the `uint32_t` at entry for the RSDT's size, the `uint64_t` there otherwise. */
  lemma RootTableEntryWidth(mem: seq<u8>, entry: nat, size: nat)
    ensures size == RSDT_ENTRY_SIZE ==> GetRootTableEntry(mem, entry, size) == Le32(mem, entry)
    ensures size != RSDT_ENTRY_SIZE ==> GetRootTableEntry(mem, entry, size) == Le64(mem, entry)
  {
    Le32IsLittleEndian(mem, entry);
    Le64IsLittleEndian(mem, entry);
  }

  /** The entry read back is the address stored there as size little-endian bytes. */
  lemma RootTableEntryRoundTrip(mem: seq<u8>, entry: nat, size: nat, address: nat)
    requires size == RSDT_ENTRY_SIZE || size == XSDT_ENTRY_SIZE
    requires address < Pow256(size) && Bytes(mem, entry, size) == ToLittleEndian(address, size)
    ensures GetRootTableEntry(mem, entry, size) == address
  {
    LittleEndianRoundTrip(address, size);
  }

  /** The `length` field of the table header at t. */
  function TableLength(mem: seq<u8>, t: nat): u32
  {
    Le32(mem, t + 4)
  }

  /** The RSDP names an XSDT to use: revision above 1 and a nonzero XSDT address. */
  predicate UsesXsdt(mem: seq<u8>, rsdp: nat)
  {
    Peek(mem, rsdp + 15) > 1 && Le64(mem, rsdp + 24) != 0
  }

  /** The address of the root table: the XSDT when it is used, else the RSDT. */
  function RootAddress(mem: seq<u8>, rsdp: nat): nat
  {
    if UsesXsdt(mem, rsdp) then Le64(mem, rsdp + 24) else Le32(mem, rsdp + 16)
  }

  /** The root table's entry size: 8 for the XSDT, 4 for the RSDT. */
  function EntrySize(mem: seq<u8>, rsdp: nat): nat
  {
    if UsesXsdt(mem, rsdp) then XSDT_ENTRY_SIZE else RSDT_ENTRY_SIZE
  }

  /** The n entries of size bytes each from address entry on. */
  function Entries(mem: seq<u8>, entry: nat, size: nat, n: nat): (r: seq<u64>)
    ensures |r| == n
    decreases n
  {
    if n == 0 then [] else [GetRootTableEntry(mem, entry, size)] + Entries(mem, entry + size, size, n - 1)
  }

  /** A root-table entry the parse records: not NULL, and its table passes the checksum check. */
  predicate Accepted(mem: seq<u8>, address: u64)
  {
    address != 0 && ChecksumValid(mem, address, TableLength(mem, address))
  }

  /** The accepted entries, in order. */
  function Accept(mem: seq<u8>, es: seq<u64>): (r: seq<u64>)
    ensures |r| <= |es|
  {
    if |es| == 0 then [] else (if Accepted(mem, es[0]) then [es[0]] else []) + Accept(mem, es[1..])
  }

  lemma AcceptCons(mem: seq<u8>, a: u64, es: seq<u64>)
    ensures Accept(mem, [a] + es) == (if Accepted(mem, a) then [a] else []) + Accept(mem, es)
  {
    assert ([a] + es)[1..] == es;
  }

  /** The accepted entries are exactly the entries that are not NULL and pass the checksum check. */
  lemma {:induction false} AcceptMembers(mem: seq<u8>, es: seq<u64>, x: u64)
    ensures x in Accept(mem, es) <==> x in es && Accepted(mem, x)
  {
    if |es| > 0 {
      AcceptMembers(mem, es[1..], x);
      assert es == [es[0]] + es[1..];
    }
  }

  /** The smaller of two numbers. */
  function Min(a: nat, b: nat): nat
  {
    if a < b then a else b
  }

  /**
   * The slots after a successful parse: the first min(|s|, 128) accepted
   * tables in order from slot 0, the other slots as they were.
   */
  predicate Recorded(tables: seq<u64>, old_tables: seq<u64>, s: seq<u64>)
    requires |tables| == |old_tables| == ACPI_MAX_TABLES
  {
    var k := Min(|s|, ACPI_MAX_TABLES);
    tables[..k] == s[..k] && tables[k..] == old_tables[k..]
  }

  /** The tables a parse of the root table from its first entry at entry records. */
  function RootTables(mem: seq<u8>, address: nat, size: nat, length: nat): seq<u64>
    requires size > 0 && length >= HEADER_SIZE
  {
    Accept(mem, Entries(mem, address + HEADER_SIZE, size, (length - HEADER_SIZE) / size))
  }

  /**
   * `acpi_tb_parse_root_table`: picks the XSDT or the RSDT, rejects a root
   * table too short for one entry (AE_INVALID_TABLE_LENGTH) or failing its
   * checksum, and otherwise stores the accepted entries in order from slot
   * 0, stopping once all 128 slots are filled.
   */
  method ParseRootTable(mem: seq<u8>, rsdpAddress: nat, initialTables: array<u64>) returns (status: Status)
    requires initialTables.Length == ACPI_MAX_TABLES
    modifies initialTables
    ensures var address := RootAddress(mem, rsdpAddress);
      var size := EntrySize(mem, rsdpAddress);
      var length := TableLength(mem, address);
      (length < HEADER_SIZE + size ==>
        status == AE_INVALID_TABLE_LENGTH && initialTables[..] == old(initialTables[..])) &&
      (length >= HEADER_SIZE + size && !ChecksumValid(mem, address, length) ==>
        status == AE_BAD_CHECKSUM && initialTables[..] == old(initialTables[..])) &&
      (length >= HEADER_SIZE + size && ChecksumValid(mem, address, length) ==>
        status == AE_OK && Recorded(initialTables[..], old(initialTables[..]), RootTables(mem, address, size, length)))
  {
    var address: nat;
    var tableEntrySize: nat;
    if Peek(mem, rsdpAddress + 15) > 1 && Le64(mem, rsdpAddress + 24) != 0 {
      address := Le64(mem, rsdpAddress + 24);
      tableEntrySize := XSDT_ENTRY_SIZE;
    } else {
      address := Le32(mem, rsdpAddress + 16);
      tableEntrySize := RSDT_ENTRY_SIZE;
    }
    assert address == RootAddress(mem, rsdpAddress) && tableEntrySize == EntrySize(mem, rsdpAddress);
    var length := Le32(mem, address + 4);
    if length < HEADER_SIZE + tableEntrySize {
      return AE_INVALID_TABLE_LENGTH;
    }
    status := VerifyChecksum(mem, address, length);
    if status != AE_OK {
      return;
    }
    var tableCount := (length - HEADER_SIZE) / tableEntrySize;
    StoreTables(mem, address + HEADER_SIZE, tableEntrySize, tableCount, initialTables);
    assert Accept(mem, Entries(mem, address + HEADER_SIZE, tableEntrySize, tableCount)) == RootTables(mem, address, tableEntrySize, length);
  }

  lemma EntriesCons(mem: seq<u8>, entry: nat, size: nat, n: nat)
    requires n > 0
    ensures Entries(mem, entry, size, n) == [GetRootTableEntry(mem, entry, size)] + Entries(mem, entry + size, size, n - 1)
  {
  }

  /**
   * The loop of `acpi_tb_parse_root_table` over the tableCount entries from
   * tableEntry: NULL entries and tables failing their checksum are skipped,
   * the others stored from slot 0 until the 128 slots are full.
   */
  method StoreTables(mem: seq<u8>, tableEntry: nat, tableEntrySize: nat, tableCount: nat, initialTables: array<u64>)
    requires initialTables.Length == ACPI_MAX_TABLES
    modifies initialTables
    ensures Recorded(initialTables[..], old(initialTables[..]), Accept(mem, Entries(mem, tableEntry, tableEntrySize, tableCount)))
  {
    var tableIndex := 0;
    var entry: nat := tableEntry;
    ghost var t0 := initialTables[..];
    ghost var all := Accept(mem, Entries(mem, tableEntry, tableEntrySize, tableCount));
    var i := 0;
    ghost var left := tableCount;
    ghost var recorded: seq<u64> := [];
    ghost var pending := Entries(mem, tableEntry, tableEntrySize, tableCount);
    while i < tableCount
      invariant i <= tableCount && tableIndex < ACPI_MAX_TABLES && left == tableCount - i
      invariant pending == Entries(mem, entry, tableEntrySize, left)
      invariant all == recorded + Accept(mem, pending)
      invariant recorded == initialTables[..tableIndex]
      invariant forall k :: tableIndex <= k < ACPI_MAX_TABLES ==> initialTables[k] == t0[k]
    {
      var a := GetRootTableEntry(mem, entry, tableEntrySize);
      var stored := StoreEntry(mem, a, initialTables, tableIndex);
      StoreStep(mem, entry, tableEntrySize, left, all, recorded, a, stored);
      pending := Entries(mem, entry + tableEntrySize, tableEntrySize, left - 1);
      if stored {
        recorded := recorded + [a];
        tableIndex := tableIndex + 1;
        if tableIndex == ACPI_MAX_TABLES {
          FullTables(initialTables[..], t0, all, Accept(mem, pending));
          return;
        }
      }
      entry := entry + tableEntrySize;
      left := left - 1;
      i := i + 1;
    }
    assert all == initialTables[..tableIndex];
  }

  /**
   * One entry of the loop: a NULL entry and a table failing its checksum
   * are skipped, any other table is stored in slot tableIndex.
   */
  method StoreEntry(mem: seq<u8>, a: u64, initialTables: array<u64>, tableIndex: nat) returns (stored: bool)
    requires tableIndex < initialTables.Length
    modifies initialTables
    ensures stored == Accepted(mem, a)
    ensures initialTables[..] == if stored then old(initialTables[..])[tableIndex := a] else old(initialTables[..])
    ensures stored ==> initialTables[..tableIndex + 1] == old(initialTables[..tableIndex]) + [a]
  {
    if a == 0 {
      return false;
    }
    var status := VerifyChecksum(mem, a, TableLength(mem, a));
    if status != AE_OK {
      return false;
    }
    initialTables[tableIndex] := a;
    return true;
  }

  /** The slots filled so far, followed by what remains to be accepted, after one entry is handled. */
  lemma StoreStep(mem: seq<u8>, entry: nat, size: nat, left: nat, all: seq<u64>, before: seq<u64>, a: u64, stored: bool)
    requires left > 0
    requires all == before + Accept(mem, Entries(mem, entry, size, left))
    requires a == GetRootTableEntry(mem, entry, size) && stored == Accepted(mem, a)
    ensures all == (if stored then before + [a] else before) + Accept(mem, Entries(mem, entry + size, size, left - 1))
  {
    var rest := Entries(mem, entry + size, size, left - 1);
    EntriesCons(mem, entry, size, left);
    AcceptCons(mem, a, rest);
  }

  /** Once the 128 slots hold the first 128 accepted tables, the parse has recorded them all. */
  lemma FullTables(tables: seq<u64>, t0: seq<u64>, all: seq<u64>, rest: seq<u64>)
    requires |tables| == |t0| == ACPI_MAX_TABLES
    requires all == tables[..ACPI_MAX_TABLES] + rest
    ensures Recorded(tables, t0, all)
  {
    assert all[..ACPI_MAX_TABLES] == tables[..ACPI_MAX_TABLES];
  }

  // ---------------------------------------------------------------------
  // Looking tables up

  /** The table at t has the 4-character name id (`ACPI_COMPARE_NAME` of its signature). */
  predicate NameMatches(mem: seq<u8>, t: nat, id: seq<u8>)
  {
    CompareName(Bytes(mem, t, 4), id)
  }

  /**
   * The pointer `acpi_find_table` returns from the slots: the first slot
   * whose signature matches, NULL slots included (a NULL slot is read at
   * address 0), or NULL.
   */
  function FindIn(mem: seq<u8>, slots: seq<u64>, id: seq<u8>): u64
  {
    if |slots| == 0 then 0
    else if NameMatches(mem, slots[0], id) then slots[0]
    else FindIn(mem, slots[1..], id)
  }

  /** `acpi_find_table`: the loop over all ARRAY_SIZE(initial_tables) slots. */
  method FindTable(mem: seq<u8>, initialTables: array<u64>, id: seq<u8>) returns (r: u64)
    ensures r == FindIn(mem, initialTables[..], id)
  {
    var i := 0;
    while i < initialTables.Length
      invariant i <= initialTables.Length
      invariant FindIn(mem, initialTables[..], id) == FindIn(mem, initialTables[i..], id)
    {
      assert initialTables[i..][1..] == initialTables[i + 1..];
      var tableHeader := initialTables[i];
      if CompareName(Bytes(mem, tableHeader, 4), id) {
        return tableHeader;
      }
      i := i + 1;
    }
    return 0;
  }

  /** A table found is one of the slots and carries the name. */
  lemma {:induction false} FindInSound(mem: seq<u8>, slots: seq<u64>, id: seq<u8>)
    ensures FindIn(mem, slots, id) != 0 ==>
      FindIn(mem, slots, id) in slots && NameMatches(mem, FindIn(mem, slots, id), id)
  {
    if |slots| > 0 && !NameMatches(mem, slots[0], id) {
      FindInSound(mem, slots[1..], id);
    }
  }

  /**
   * With no NULL slot and no matching slot before slot i, and slot i
   * matching, the lookup returns slot i: slots filled from 0 by the parse
   * are searched in order.
   */
  lemma {:induction false} FindInFirst(mem: seq<u8>, slots: seq<u64>, id: seq<u8>, i: nat)
    requires i < |slots| && NameMatches(mem, slots[i], id)
    requires forall j :: 0 <= j < i ==> !NameMatches(mem, slots[j], id)
    ensures FindIn(mem, slots, id) == slots[i]
  {
    if i > 0 {
      FindInFirst(mem, slots[1..], id, i - 1);
    }
  }

  /** When no slot's signature matches, the lookup returns NULL. */
  lemma {:induction false} FindInMissing(mem: seq<u8>, slots: seq<u64>, id: seq<u8>)
    requires forall j :: 0 <= j < |slots| ==> !NameMatches(mem, slots[j], id)
    ensures FindIn(mem, slots, id) == 0
  {
    if |slots| > 0 {
      FindInMissing(mem, slots[1..], id);
    }
  }

  /**
   * The NULL-slot read: when the 4 bytes at address 0 happen to match, an
   * empty slot before a real table hides it and the lookup returns NULL.
   */
  lemma FindInNullSlot(mem: seq<u8>, slots: seq<u64>, id: seq<u8>, i: nat)
    requires i < |slots| && slots[i] == 0 && NameMatches(mem, 0, id)
    requires forall j :: 0 <= j < i ==> !NameMatches(mem, slots[j], id)
    ensures FindIn(mem, slots, id) == 0
  {
    FindInFirst(mem, slots, id, i);
  }

  /**
   * `acpi_table_parse`: -ENODEV when the lookup returns NULL, else 0, with
   * the found table as the one the handler is called with (None: the
   * handler is not called).
   */
  method TableParse(mem: seq<u8>, initialTables: array<u64>, id: seq<u8>) returns (r: int, handled: Option<u64>)
    ensures FindIn(mem, initialTables[..], id) == 0 ==> r == -ENODEV && handled == None
    ensures FindIn(mem, initialTables[..], id) != 0 ==> r == 0 && handled == Some(FindIn(mem, initialTables[..], id))
  {
    var table := FindTable(mem, initialTables, id);
    if table == 0 {
      return -ENODEV, None;
    }
    return 0, Some(table);
  }

  // ---------------------------------------------------------------------
  // The subtable walk

  /** One handler call of the walk: the subtable at `entry` handed to proc number `proc`. */
  datatype Dispatch = Dispatch(entry: nat, proc: nat)

  /** The handler calls of a walk, in order, and whether it ended on a zero-length subtable (BUG). */
  datatype Walk = Walk(calls: seq<Dispatch>, bug: bool)

  /** The first proc from number k on whose id is t, or |ids| when there is none. */
  function ProcFrom(ids: seq<int>, t: int, k: nat): (r: nat)
    requires k <= |ids|
    ensures k <= r <= |ids|
    decreases |ids| - k
  {
    if k == |ids| || ids[k] == t then k else ProcFrom(ids, t, k + 1)
  }

  /** ProcFrom finds a proc with id t, and none before it from k on. */
  lemma {:induction false} ProcFromFirst(ids: seq<int>, t: int, k: nat)
    requires k <= |ids|
    ensures ProcFrom(ids, t, k) < |ids| ==> ids[ProcFrom(ids, t, k)] == t
    ensures forall j :: k <= j < ProcFrom(ids, t, k) ==> ids[j] != t
    decreases |ids| - k
  {
    if k < |ids| && ids[k] != t {
      ProcFromFirst(ids, t, k + 1);
    }
  }

  /** The handler call for the subtable at entry: to the first proc whose id is its type, if any. */
  function Here(mem: seq<u8>, entry: nat, ids: seq<int>): (r: seq<Dispatch>)
    ensures |r| <= 1
  {
    var p := ProcFrom(ids, Peek(mem, entry) as int, 0);
    if p < |ids| then [Dispatch(entry, p)] else []
  }

  /**
   * The walk of `acpi_table_parse_entries_array` from subtable `entry` on,
   * count matched entries seen so far: it goes on while a whole subtable
   * header lies below tableEnd and fewer than maxEntries (when nonzero)
   * entries matched; it hands each subtable to the first proc whose id is
   * its type and moves on by the subtable's length, a length of 0 being a
   * BUG.
   */
  function WalkFrom(mem: seq<u8>, entry: nat, tableEnd: nat, ids: seq<int>, maxEntries: nat, count: nat): Walk
    decreases if entry < tableEnd then tableEnd - entry else 0
  {
    if entry + SUBTABLE_HEADER_SIZE >= tableEnd then Walk([], false)
    else if maxEntries != 0 && count >= maxEntries then Walk([], false)
    else
      var here := Here(mem, entry, ids);
      var length := Peek(mem, entry + 1) as nat;
      if length == 0 then Walk(here, true)
      else Then(here, WalkFrom(mem, entry + length, tableEnd, ids, maxEntries, count + |here|))
  }

  /** The calls already made, followed by the rest of a walk. */
  function Then(calls: seq<Dispatch>, w: Walk): Walk
  {
    Walk(calls + w.calls, w.bug)
  }

  /** How many of the calls went to proc i. */
  function CallsTo(calls: seq<Dispatch>, i: nat): nat
  {
    if |calls| == 0 then 0
    else CallsTo(calls[..|calls| - 1], i) + (if calls[|calls| - 1].proc == i then 1 else 0)
  }

  /**
   * `acpi_table_parse_entries_array`: -ENODEV when the table is absent;
   * otherwise the walk's handler calls, each proc's count raised by its
   * calls, and the number of matched entries as the result.
   */
  method ParseEntriesArray(mem: seq<u8>, initialTables: array<u64>, id: seq<u8>, tableSize: nat,
                           procIds: seq<int>, procCounts: array<int>, maxEntries: u32)
    returns (r: int, calls: seq<Dispatch>, bug: bool)
    requires procCounts.Length == |procIds|
    modifies procCounts
    ensures var t := FindIn(mem, initialTables[..], id);
      t == 0 ==> r == -ENODEV && calls == [] && !bug && procCounts[..] == old(procCounts[..])
    ensures var t := FindIn(mem, initialTables[..], id);
      t != 0 ==>
        Walk(calls, bug) == WalkFrom(mem, t + tableSize, t + TableLength(mem, t), procIds, maxEntries, 0) &&
        (!bug ==> r == |calls|) &&
        forall i :: 0 <= i < |procIds| ==> procCounts[i] == old(procCounts[i]) + CallsTo(calls, i)
  {
    var tableHeader := FindTable(mem, initialTables, id);
    if tableHeader == 0 {
      return -ENODEV, [], false;
    }
    r, calls, bug := WalkEntries(mem, tableHeader + tableSize, tableHeader + TableLength(mem, tableHeader),
                                 procIds, procCounts, maxEntries);
  }

  /**
   * The loop of `acpi_table_parse_entries_array` over the subtables from
   * start up to tableEnd.
   */
  method WalkEntries(mem: seq<u8>, start: nat, tableEnd: nat, procIds: seq<int>, procCounts: array<int>, maxEntries: u32)
    returns (count: int, calls: seq<Dispatch>, bug: bool)
    requires procCounts.Length == |procIds|
    modifies procCounts
    ensures Walk(calls, bug) == WalkFrom(mem, start, tableEnd, procIds, maxEntries, 0)
    ensures !bug ==> count == |calls|
    ensures forall i :: 0 <= i < |procIds| ==> procCounts[i] == old(procCounts[i]) + CallsTo(calls, i)
  {
    var entry: nat := start;
    count := 0;
    calls := [];
    ghost var walk := WalkFrom(mem, entry, tableEnd, procIds, maxEntries, 0);
    while entry + SUBTABLE_HEADER_SIZE < tableEnd
      invariant count == |calls|
      invariant walk == Then(calls, WalkFrom(mem, entry, tableEnd, procIds, maxEntries, count))
      invariant forall i :: 0 <= i < |procIds| ==> procCounts[i] == old(procCounts[i]) + CallsTo(calls, i)
      decreases tableEnd - entry
    {
      if maxEntries != 0 && count >= maxEntries {
        WalkStops(mem, entry, tableEnd, procIds, maxEntries, count);
        return count, calls, false;
      }
      ghost var before := calls;
      ghost var w := WalkFrom(mem, entry, tableEnd, procIds, maxEntries, count);
      var matched;
      calls, matched := DispatchEntry(mem, entry, procIds, procCounts, calls);
      if matched {
        count := count + 1;
      }
      var length := Peek(mem, entry + 1) as nat;
      ghost var here := Here(mem, entry, procIds);
      assert count == |before| + |here|;
      WalkStep(mem, entry, tableEnd, procIds, maxEntries, |before|, length);
      WalkAdvance(walk, before, here, w, WalkFrom(mem, entry + length, tableEnd, procIds, maxEntries, count), length == 0);
      if length == 0 {
        return count, calls, true;
      }
      entry := entry + length;
    }
    WalkStops(mem, entry, tableEnd, procIds, maxEntries, count);
    bug := false;
  }

  /**
   * The inner loop of the walk: the subtable at entry goes to the first
   * proc whose id is its type, whose count goes up by one.
   */
  method DispatchEntry(mem: seq<u8>, entry: nat, procIds: seq<int>, procCounts: array<int>, calls: seq<Dispatch>)
    returns (next: seq<Dispatch>, matched: bool)
    requires procCounts.Length == |procIds|
    modifies procCounts
    ensures next == calls + Here(mem, entry, procIds) && matched == (|next| == |calls| + 1)
    ensures forall i :: 0 <= i < |procIds| ==>
      procCounts[i] - old(procCounts[i]) == CallsTo(next, i) - CallsTo(calls, i)
  {
    var entryType := Peek(mem, entry) as int;
    var i := 0;
    while i < |procIds| && procIds[i] != entryType
      invariant i <= |procIds| && ProcFrom(procIds, entryType, i) == ProcFrom(procIds, entryType, 0)
    {
      i := i + 1;
    }
    if i == |procIds| {
      return calls, false;
    }
    procCounts[i] := procCounts[i] + 1;
    CallsToAppend(calls, Dispatch(entry, i));
    return calls + [Dispatch(entry, i)], true;
  }

  lemma CallsToAppend(calls: seq<Dispatch>, d: Dispatch)
    ensures forall i :: CallsTo(calls + [d], i) == CallsTo(calls, i) + (if d.proc == i then 1 else 0)
  {
    assert (calls + [d])[..|calls|] == calls;
  }

  /** One step of the walk, with the subtable's length named. */
  lemma WalkStep(mem: seq<u8>, entry: nat, tableEnd: nat, ids: seq<int>, maxEntries: nat, count: nat, length: nat)
    requires entry + SUBTABLE_HEADER_SIZE < tableEnd && !(maxEntries != 0 && count >= maxEntries)
    requires length == Peek(mem, entry + 1) as nat
    ensures WalkFrom(mem, entry, tableEnd, ids, maxEntries, count) ==
      if length == 0 then Walk(Here(mem, entry, ids), true)
      else Then(Here(mem, entry, ids), WalkFrom(mem, entry + length, tableEnd, ids, maxEntries, count + |Here(mem, entry, ids)|))
  {
  }

  /** A step of the walk past a subtable of nonzero length: its call, if any, then the rest of the walk. */
  lemma WalkMoves(mem: seq<u8>, entry: nat, tableEnd: nat, ids: seq<int>, maxEntries: nat, count: nat, length: nat)
    requires entry + SUBTABLE_HEADER_SIZE < tableEnd && !(maxEntries != 0 && count >= maxEntries)
    requires length == Peek(mem, entry + 1) as nat && length != 0
    ensures WalkFrom(mem, entry, tableEnd, ids, maxEntries, count).calls ==
      Here(mem, entry, ids) + WalkFrom(mem, entry + length, tableEnd, ids, maxEntries, count + |Here(mem, entry, ids)|).calls
  {
  }

  /** The walk ends, with no call, past the table's end or once max_entries entries matched. */
  lemma WalkStops(mem: seq<u8>, entry: nat, tableEnd: nat, ids: seq<int>, maxEntries: nat, count: nat)
    requires entry + SUBTABLE_HEADER_SIZE >= tableEnd || (maxEntries != 0 && count >= maxEntries)
    ensures WalkFrom(mem, entry, tableEnd, ids, maxEntries, count) == Walk([], false)
  {
  }

  lemma WalkAdvance(walk: Walk, before: seq<Dispatch>, here: seq<Dispatch>, w: Walk, rest: Walk, last: bool)
    requires walk == Then(before, w)
    requires w == if last then Walk(here, true) else Then(here, rest)
    ensures last ==> walk == Walk(before + here, true)
    ensures !last ==> walk == Then(before + here, rest)
  {
    if !last {
      assert before + (here + rest.calls) == (before + here) + rest.calls;
    }
  }

  // ---------------------------------------------------------------------
  // Properties of the walk

  /**
   * Every call of the walk hands a subtable inside the walked range to
   * the first proc whose id is the subtable's type.
   */
  lemma {:induction false} WalkDispatch(mem: seq<u8>, entry: nat, tableEnd: nat, ids: seq<int>, maxEntries: nat, count: nat)
    ensures Dispatched(mem, WalkFrom(mem, entry, tableEnd, ids, maxEntries, count).calls, entry, tableEnd, ids)
    decreases if entry < tableEnd then tableEnd - entry else 0
  {
    if entry + SUBTABLE_HEADER_SIZE < tableEnd && !(maxEntries != 0 && count >= maxEntries) {
      var length := Peek(mem, entry + 1) as nat;
      if length != 0 {
        WalkDispatch(mem, entry + length, tableEnd, ids, maxEntries, count + |Here(mem, entry, ids)|);
        DispatchMoves(mem, entry, tableEnd, ids, maxEntries, count, length);
      } else {
        WalkStep(mem, entry, tableEnd, ids, maxEntries, count, length);
        DispatchedHere(mem, entry, tableEnd, ids);
      }
    }
  }

  /**
   * Each of the calls hands a subtable at lo or above whose header lies
   * below tableEnd to the first proc whose id is the subtable's type.
   */
  predicate Dispatched(mem: seq<u8>, calls: seq<Dispatch>, lo: nat, tableEnd: nat, ids: seq<int>)
  {
    forall d :: d in calls ==>
      lo <= d.entry && d.entry + SUBTABLE_HEADER_SIZE < tableEnd &&
      d.proc < |ids| && ids[d.proc] == Peek(mem, d.entry) as int &&
      forall j :: 0 <= j < d.proc ==> ids[j] != Peek(mem, d.entry) as int
  }

  lemma DispatchedHere(mem: seq<u8>, entry: nat, tableEnd: nat, ids: seq<int>)
    requires entry + SUBTABLE_HEADER_SIZE < tableEnd
    ensures Dispatched(mem, Here(mem, entry, ids), entry, tableEnd, ids)
  {
    ProcFromFirst(ids, Peek(mem, entry) as int, 0);
  }

  /** The call at a subtable the walk moves past, and the calls of the rest of the walk, are dispatched correctly. */
  lemma DispatchMoves(mem: seq<u8>, entry: nat, tableEnd: nat, ids: seq<int>, maxEntries: nat, count: nat, length: nat)
    requires entry + SUBTABLE_HEADER_SIZE < tableEnd && !(maxEntries != 0 && count >= maxEntries)
    requires length == Peek(mem, entry + 1) as nat && length != 0
    requires Dispatched(mem, WalkFrom(mem, entry + length, tableEnd, ids, maxEntries, count + |Here(mem, entry, ids)|).calls,
                        entry + length, tableEnd, ids)
    ensures Dispatched(mem, WalkFrom(mem, entry, tableEnd, ids, maxEntries, count).calls, entry, tableEnd, ids)
  {
    WalkMoves(mem, entry, tableEnd, ids, maxEntries, count, length);
    DispatchedHere(mem, entry, tableEnd, ids);
  }

  /** The calls hand over subtables at strictly increasing addresses, all at a or above. */
  predicate Above(calls: seq<Dispatch>, a: nat)
  {
    |calls| == 0 || (a <= calls[0].entry && Above(calls[1..], calls[0].entry + 1))
  }

  lemma AboveLower(calls: seq<Dispatch>, a: nat, b: nat)
    requires b <= a && Above(calls, a)
    ensures Above(calls, b)
  {
  }

  /** Above, stated pairwise. */
  lemma {:induction false} AboveSorted(calls: seq<Dispatch>, a: nat)
    requires Above(calls, a)
    ensures forall k :: 0 <= k < |calls| ==> a <= calls[k].entry
    ensures forall i, j :: 0 <= i < j < |calls| ==> calls[i].entry < calls[j].entry
  {
    if |calls| > 0 {
      AboveSorted(calls[1..], calls[0].entry + 1);
      forall i, j | 0 <= i < j < |calls|
        ensures calls[i].entry < calls[j].entry
      {
        assert calls[j] == calls[1..][j - 1];
        if i > 0 {
          assert calls[i] == calls[1..][i - 1];
        }
      }
      forall k | 0 <= k < |calls|
        ensures a <= calls[k].entry
      {
        if k > 0 {
          assert calls[k] == calls[1..][k - 1];
        }
      }
    }
  }

  lemma {:induction false} WalkAbove(mem: seq<u8>, entry: nat, tableEnd: nat, ids: seq<int>, maxEntries: nat, count: nat)
    ensures Above(WalkFrom(mem, entry, tableEnd, ids, maxEntries, count).calls, entry)
    decreases if entry < tableEnd then tableEnd - entry else 0
  {
    if entry + SUBTABLE_HEADER_SIZE < tableEnd && !(maxEntries != 0 && count >= maxEntries) {
      var length := Peek(mem, entry + 1) as nat;
      if length != 0 {
        WalkAbove(mem, entry + length, tableEnd, ids, maxEntries, count + |Here(mem, entry, ids)|);
        AboveMoves(mem, entry, tableEnd, ids, maxEntries, count, length);
      } else {
        WalkStep(mem, entry, tableEnd, ids, maxEntries, count, length);
        HereEntry(mem, entry, ids);
        AbovePrepend(Here(mem, entry, ids), [], entry, 1);
      }
    }
  }

  /** The first call of a walk that moves past its subtable comes below the rest of the walk. */
  lemma AboveMoves(mem: seq<u8>, entry: nat, tableEnd: nat, ids: seq<int>, maxEntries: nat, count: nat, length: nat)
    requires entry + SUBTABLE_HEADER_SIZE < tableEnd && !(maxEntries != 0 && count >= maxEntries)
    requires length == Peek(mem, entry + 1) as nat && length != 0
    requires Above(WalkFrom(mem, entry + length, tableEnd, ids, maxEntries, count + |Here(mem, entry, ids)|).calls, entry + length)
    ensures Above(WalkFrom(mem, entry, tableEnd, ids, maxEntries, count).calls, entry)
  {
    WalkMoves(mem, entry, tableEnd, ids, maxEntries, count, length);
    HereEntry(mem, entry, ids);
    AbovePrepend(Here(mem, entry, ids), WalkFrom(mem, entry + length, tableEnd, ids, maxEntries, count + |Here(mem, entry, ids)|).calls, entry, length);
  }

  lemma AbovePrepend(here: seq<Dispatch>, rest: seq<Dispatch>, entry: nat, length: nat)
    requires length >= 1 && |here| <= 1 && (|here| == 1 ==> here[0].entry == entry)
    requires Above(rest, entry + length)
    ensures Above(here + rest, entry)
  {
    if |here| == 1 {
      AboveLower(rest, entry + length, entry + 1);
      assert (here + rest)[1..] == rest;
    } else {
      AboveLower(rest, entry + length, entry);
      assert here + rest == rest;
    }
  }

  lemma HereEntry(mem: seq<u8>, entry: nat, ids: seq<int>)
    ensures |Here(mem, entry, ids)| == 1 ==> Here(mem, entry, ids)[0].entry == entry
  {
  }

  /**
   * The walk hands subtables over at strictly increasing addresses from
   * where it started, so each subtable at most once.
   */
  lemma WalkAscending(mem: seq<u8>, entry: nat, tableEnd: nat, ids: seq<int>, maxEntries: nat, count: nat)
    ensures var calls := WalkFrom(mem, entry, tableEnd, ids, maxEntries, count).calls;
      (forall k :: 0 <= k < |calls| ==> entry <= calls[k].entry) &&
      (forall i, j :: 0 <= i < j < |calls| ==> calls[i].entry < calls[j].entry)
  {
    WalkAbove(mem, entry, tableEnd, ids, maxEntries, count);
    AboveSorted(WalkFrom(mem, entry, tableEnd, ids, maxEntries, count).calls, entry);
  }

  /** With max_entries nonzero, the walk stops after max_entries matched entries. */
  lemma {:induction false} WalkBound(mem: seq<u8>, entry: nat, tableEnd: nat, ids: seq<int>, maxEntries: nat, count: nat)
    requires maxEntries != 0 && count <= maxEntries
    ensures count + |WalkFrom(mem, entry, tableEnd, ids, maxEntries, count).calls| <= maxEntries
    decreases if entry < tableEnd then tableEnd - entry else 0
  {
    if entry + SUBTABLE_HEADER_SIZE < tableEnd && count < maxEntries {
      var here := Here(mem, entry, ids);
      var length := Peek(mem, entry + 1) as nat;
      WalkStep(mem, entry, tableEnd, ids, maxEntries, count, length);
      if length != 0 {
        WalkBound(mem, entry + length, tableEnd, ids, maxEntries, count + |here|);
      }
    }
  }
}
