/**
 * The boot processor's discovery of its peers (`kernel/apic.c`): the MADT
 * (section 5.2.12 of the ACPI standard) is walked for its Processor Local
 * APIC (type 0) and Processor Local x2APIC (type 9) subtables, and each
 * enabled processor's APIC id is given a logical CPU id in
 * `cpuid_to_apicid`, logical id 0 being reserved for the boot CPU.
 *
 * APIC ids are held as their 32-bit patterns: the source stores them in
 * `int` and `unsigned int` variables, and the comparisons it makes agree
 * on the patterns.
 */
module Apic {
  import opened Machine
  import opened AcTypes
  import opened Acpi

  /** The id of no APIC; asm/apic.h is not part of this model, the value is Linux's. */
  const BAD_APICID: u32 := 0xFFFF
  /** The walk's max_entries; asm/apic.h is not part of this model, the value is Linux's. */
  const MAX_LOCAL_APIC: u32 := 32768
  /** `sizeof(struct acpi_table_madt)`: the common header and the address and flags words. */
  const MADT_SIZE: nat := 44
  /** `sizeof(struct acpi_madt_local_apic)`. */
  const LOCAL_APIC_SIZE: nat := 8
  /** `sizeof(struct acpi_madt_local_x2apic)`. */
  const LOCAL_X2APIC_SIZE: nat := 16
  const MADT_TYPE_LOCAL_APIC: int := 0
  const MADT_TYPE_LOCAL_X2APIC: int := 9
  /** The procs of `acpi_parse_madt_lapic_entries`: proc 0 handles LAPIC entries, proc 1 x2APIC entries. */
  const MADT_PROC_IDS: seq<int> := [MADT_TYPE_LOCAL_APIC, MADT_TYPE_LOCAL_X2APIC]

  // ---------------------------------------------------------------------
  // The logical CPU id map

  /**
   * `cpuid_to_apicid` (NR_CPUS slots), `nr_logical_cpuids` and
   * `boot_cpu_physical_apicid`.
   */
  datatype CpuMap = CpuMap(slots: seq<u32>, nr: nat, boot: u32)

  /** The initial map: one logical id reserved for the boot CPU, every slot and the boot id BAD_APICID. */
  function InitialMap(nrCpus: nat): (m: CpuMap)
    requires nrCpus >= 1
    ensures |m.slots| == nrCpus && m.nr == 1 && m.boot == BAD_APICID
    ensures forall i :: 0 <= i < nrCpus ==> m.slots[i] == BAD_APICID
  {
    CpuMap(seq(nrCpus, _ => BAD_APICID), 1, BAD_APICID)
  }

  /** The APIC id has a logical CPU id: it is in slots [0, nr). */
  predicate Allocated(m: CpuMap, apicid: u32)
    requires m.nr <= |m.slots|
  {
    apicid in m.slots[..m.nr]
  }

  /**
   * The invariant of the map: the logical ids allocated are [0, nr) with
   * 1 <= nr <= NR_CPUS, they map to distinct APIC ids, none of the
   * secondary ones to the boot CPU's, slot 0 is unset or the boot CPU's,
   * and the unallocated slots are unset.
   */
  predicate MapValid(m: CpuMap)
  {
    1 <= m.nr <= |m.slots| &&
    (forall i, j :: 0 <= i < j < m.nr ==> m.slots[i] != m.slots[j]) &&
    (forall i :: 1 <= i < m.nr ==> m.slots[i] != m.boot) &&
    (m.slots[0] == BAD_APICID || m.slots[0] == m.boot) &&
    (forall i :: m.nr <= i < |m.slots| ==> m.slots[i] == BAD_APICID)
  }

  lemma InitialMapValid(nrCpus: nat)
    requires nrCpus >= 1
    ensures MapValid(InitialMap(nrCpus))
  {
  }

  /**
   * `acpi_register_lapic`: None for a panic (a disabled processor, or a
   * new APIC id with all NR_CPUS logical ids taken).
   */
  function Register(m: CpuMap, apicid: u32, enabled: bool): (r: Option<CpuMap>)
    requires 1 <= m.nr <= |m.slots|
    ensures r.Some? ==> |r.value.slots| == |m.slots| && 1 <= r.value.nr <= |m.slots| && r.value.boot == m.boot
  {
    if !enabled then None
    else if apicid == m.boot then Some(m.(slots := m.slots[0 := apicid]))
    else if apicid in m.slots[..m.nr] then Some(m)
    else if m.nr >= |m.slots| then None
    else Some(m.(slots := m.slots[m.nr := apicid], nr := m.nr + 1))
  }

  /** Registering panics exactly for a disabled processor, or a new secondary APIC id when the map is full. */
  lemma RegisterPanics(m: CpuMap, apicid: u32, enabled: bool)
    requires 1 <= m.nr <= |m.slots|
    ensures Register(m, apicid, enabled).None? <==>
      !enabled || (apicid != m.boot && !Allocated(m, apicid) && m.nr == |m.slots|)
  {
  }

  /**
   * A registration keeps the invariant, and gives the APIC id a logical
   * id: 0 for the boot CPU, the next free one, nr, for a new secondary
   * CPU, the one it has for a known id; nothing else changes.
   */
  lemma {:induction false} RegisterKeepsValid(m: CpuMap, apicid: u32, enabled: bool)
    requires MapValid(m) && Register(m, apicid, enabled).Some?
    ensures var m' := Register(m, apicid, enabled).value;
      MapValid(m') && Allocated(m', apicid) &&
      (apicid == m.boot ==> m'.slots[0] == apicid) &&
      (m'.nr == m.nr || (m'.nr == m.nr + 1 && m'.slots[m.nr] == apicid && !Allocated(m, apicid))) &&
      forall i :: 1 <= i < |m.slots| && i != m.nr ==> m'.slots[i] == m.slots[i]
  {
    var m' := Register(m, apicid, enabled).value;
    if apicid == m.boot {
      assert m'.slots[..m'.nr][0] == apicid;
    } else if apicid in m.slots[..m.nr] {
    } else {
      assert m'.slots[..m'.nr][m.nr] == apicid;
      forall i, j | 0 <= i < j < m'.nr
        ensures m'.slots[i] != m'.slots[j]
      {
        if j == m.nr {
          assert m.slots[..m.nr][i] == m.slots[i];
        }
      }
    }
  }

  /** An APIC id other than BAD_APICID that has a logical id keeps it over a registration. */
  lemma RegisterKeepsAllocated(m: CpuMap, apicid: u32, enabled: bool, x: u32)
    requires MapValid(m) && Register(m, apicid, enabled).Some?
    requires Allocated(m, x) && x != BAD_APICID
    ensures Allocated(Register(m, apicid, enabled).value, x)
  {
    var m' := Register(m, apicid, enabled).value;
    var i :| 0 <= i < m.nr && m.slots[..m.nr][i] == x;
    if i == 0 && apicid == m.boot {
      assert m'.slots[..m'.nr][0] == x;
    } else {
      assert m'.slots[..m'.nr][i] == x;
    }
  }

  /** Registering the same processor again changes nothing. */
  lemma RegisterIdempotent(m: CpuMap, apicid: u32, enabled: bool)
    requires MapValid(m) && Register(m, apicid, enabled).Some?
    ensures Register(Register(m, apicid, enabled).value, apicid, enabled) == Register(m, apicid, enabled)
  {
    RegisterKeepsValid(m, apicid, enabled);
    var m' := Register(m, apicid, enabled).value;
    if apicid == m.boot {
      assert m'.slots[0 := apicid] == m'.slots;
    }
  }

  // ---------------------------------------------------------------------
  // The MADT processor entries

  /** `BAD_MADT_ENTRY(entry, end)` for an entry structure of the given size. */
  predicate BadMadtEntry(mem: seq<u8>, entry: nat, end: nat, size: nat)
  {
    entry == 0 || entry + size > end || (Peek(mem, entry + 1) as nat) < size
  }

  /** The size of the entry structure proc handles. */
  function ProcEntrySize(proc: nat): nat
  {
    if proc == 0 then LOCAL_APIC_SIZE else LOCAL_X2APIC_SIZE
  }

  /** The APIC id of a processor entry: the 8-bit `id` of a LAPIC entry, the 32-bit `local_apic_id` of an x2APIC one. */
  function EntryApicId(mem: seq<u8>, d: Dispatch): u32
  {
    if d.proc == 0 then Peek(mem, d.entry + 3) as u32 else Le32(mem, d.entry + 4)
  }

  /** Bit 0 of the entry's `lapic_flags` (ACPI_MADT_ENABLED). */
  predicate EntryEnabled(mem: seq<u8>, d: Dispatch)
  {
    Le32(mem, d.entry + (if d.proc == 0 then 4 else 8)) % 2 == 1
  }

  /** `acpi_parse_lapic` (proc 0) and `acpi_parse_x2apic` (any other proc): BUG on a bad entry, then register. */
  function Handle(mem: seq<u8>, m: CpuMap, d: Dispatch, end: nat): (r: Option<CpuMap>)
    requires 1 <= m.nr <= |m.slots|
    ensures r.Some? ==> |r.value.slots| == |m.slots| && 1 <= r.value.nr <= |m.slots| && r.value.boot == m.boot
  {
    if BadMadtEntry(mem, d.entry, end, ProcEntrySize(d.proc)) then None
    else Register(m, EntryApicId(mem, d), EntryEnabled(mem, d))
  }

  /** The handler calls of a walk made in order; None once one of them panics. */
  function ApplyCalls(mem: seq<u8>, m: CpuMap, calls: seq<Dispatch>, end: nat): (r: Option<CpuMap>)
    requires 1 <= m.nr <= |m.slots|
    ensures r.Some? ==> |r.value.slots| == |m.slots| && 1 <= r.value.nr <= |m.slots| && r.value.boot == m.boot
    decreases |calls|
  {
    if |calls| == 0 then Some(m)
    else match Handle(mem, m, calls[0], end)
      case None => None
      case Some(m1) => ApplyCalls(mem, m1, calls[1..], end)
  }

  /**
   * Every entry of the calls was well formed and enabled, and its APIC id,
   * unless BAD_APICID, has a logical id in m.
   */
  predicate Registered(mem: seq<u8>, m: CpuMap, calls: seq<Dispatch>, end: nat)
    requires m.nr <= |m.slots|
  {
    forall d :: d in calls ==>
      !BadMadtEntry(mem, d.entry, end, ProcEntrySize(d.proc)) && EntryEnabled(mem, d) &&
      (EntryApicId(mem, d) != BAD_APICID ==> Allocated(m, EntryApicId(mem, d)))
  }

  /**
   * When every handler call returns, the invariant holds, every entry was
   * well formed and enabled, and every APIC id other than BAD_APICID
   * handed over has a logical id.
   */
  lemma {:induction false} ApplyRegisters(mem: seq<u8>, m: CpuMap, calls: seq<Dispatch>, end: nat)
    requires MapValid(m) && ApplyCalls(mem, m, calls, end).Some?
    ensures var m' := ApplyCalls(mem, m, calls, end).value;
      MapValid(m') &&
      (forall x :: Allocated(m, x) && x != BAD_APICID ==> Allocated(m', x)) &&
      Registered(mem, m', calls, end)
    decreases |calls|
  {
    if |calls| > 0 {
      var d := calls[0];
      var m1 := Handle(mem, m, d, end).value;
      RegisterKeepsValid(m, EntryApicId(mem, d), EntryEnabled(mem, d));
      forall x | Allocated(m, x) && x != BAD_APICID
        ensures Allocated(m1, x)
      {
        RegisterKeepsAllocated(m, EntryApicId(mem, d), EntryEnabled(mem, d), x);
      }
      ApplyRegisters(mem, m1, calls[1..], end);
      var m' := ApplyCalls(mem, m, calls, end).value;
      forall e | e in calls
        ensures !BadMadtEntry(mem, e.entry, end, ProcEntrySize(e.proc)) && EntryEnabled(mem, e) &&
          (EntryApicId(mem, e) != BAD_APICID ==> Allocated(m', EntryApicId(mem, e)))
      {
        if e != d {
          assert e in calls[1..];
        }
      }
    }
  }

  /**
   * An entry whose APIC id is BAD_APICID never gets a logical id of its
   * own once the boot CPU is known: it matches the unset slot 0 until the
   * boot CPU's entry overwrites that slot.
   */
  lemma BadIdShadowed(m: CpuMap, enabled: bool)
    requires MapValid(m) && m.boot != BAD_APICID && m.slots[0] == BAD_APICID && enabled
    ensures Register(m, BAD_APICID, enabled) == Some(m)
  {
    assert m.slots[..m.nr][0] == BAD_APICID;
  }

  // ---------------------------------------------------------------------
  // Discovery on the boot CPU

  /** `madt->address`: the physical address of the local APIC, at offset 36 of the MADT. */
  function MadtAddress(mem: seq<u8>, t: nat): u32
  {
    Le32(mem, t + 36)
  }

  /** The walk `acpi_parse_madt_lapic_entries` makes of the MADT at t. */
  function MadtWalk(mem: seq<u8>, t: nat): Walk
  {
    WalkFrom(mem, t + MADT_SIZE, t + TableLength(mem, t), MADT_PROC_IDS, MAX_LOCAL_APIC, 0)
  }

  /**
   * The boot-CPU branch of `apic_init`, the boot CPU reading its own APIC
   * id as readApicId: the map and `acpi_lapic_addr` it leaves, or None for
   * a BUG or panic (no MADT, a zero-length subtable, a handler's panic, or
   * the boot CPU missing from the MADT).
   */
  function BootDiscovery(mem: seq<u8>, tables: seq<u64>, m: CpuMap, readApicId: u32): Option<(CpuMap, u64)>
    requires 1 <= m.nr <= |m.slots|
  {
    var t := FindIn(mem, tables, SIG_MADT);
    if t == 0 then None else MadtDiscovery(mem, t, m.(boot := readApicId))
  }

  /** The discovery from the MADT at t on, the boot CPU's APIC id already set in m. */
  function MadtDiscovery(mem: seq<u8>, t: nat, m: CpuMap): Option<(CpuMap, u64)>
    requires 1 <= m.nr <= |m.slots|
  {
    var w := MadtWalk(mem, t);
    if w.bug then None else BootCpuCheck(ApplyCalls(mem, m, w.calls, t + TableLength(mem, t)), m.boot, MadtAddress(mem, t))
  }

  lemma MadtDiscoveryIs(mem: seq<u8>, t: nat, m: CpuMap, calls: seq<Dispatch>, bug: bool, r: Option<CpuMap>)
    requires 1 <= m.nr <= |m.slots| && Walk(calls, bug) == MadtWalk(mem, t)
    requires !bug ==> r == ApplyCalls(mem, m, calls, t + TableLength(mem, t))
    ensures MadtDiscovery(mem, t, m) == if bug then None else BootCpuCheck(r, m.boot, MadtAddress(mem, t))
  {
  }

  /** The final check of `apic_init`: a panic unless logical id 0 is the boot CPU's. */
  function BootCpuCheck(r: Option<CpuMap>, boot: u32, lapic: u32): Option<(CpuMap, u64)>
    requires r.Some? ==> |r.value.slots| > 0
  {
    match r
    case None => None
    case Some(m') => if m'.slots[0] != boot then None else Some((m', lapic as u64))
  }

  /**
   * A discovery that goes through leaves a valid map whose logical id 0 is
   * the boot CPU's, the local APIC address from the MADT, and a logical id
   * for every enabled processor entry of the MADT (bar one with APIC id
   * BAD_APICID), each of them a LAPIC or x2APIC entry.
   */
  lemma BootDiscoverySound(mem: seq<u8>, tables: seq<u64>, m: CpuMap, readApicId: u32)
    requires MapValid(m) && m.boot == BAD_APICID && m.nr == 1
    requires BootDiscovery(mem, tables, m, readApicId).Some?
    ensures var t := FindIn(mem, tables, SIG_MADT);
      var m' := BootDiscovery(mem, tables, m, readApicId).value.0;
      t != 0 && MapValid(m') && m'.boot == readApicId && m'.slots[0] == readApicId &&
      BootDiscovery(mem, tables, m, readApicId).value.1 == MadtAddress(mem, t) as u64 &&
      Dispatched(mem, MadtWalk(mem, t).calls, t + MADT_SIZE, t + TableLength(mem, t), MADT_PROC_IDS) &&
      Registered(mem, m', MadtWalk(mem, t).calls, t + TableLength(mem, t))
  {
    var m1 := m.(boot := readApicId);
    assert MapValid(m1);
    MadtDiscoverySound(mem, FindIn(mem, tables, SIG_MADT), m1);
  }

  lemma MadtDiscoverySound(mem: seq<u8>, t: nat, m: CpuMap)
    requires MapValid(m) && MadtDiscovery(mem, t, m).Some?
    ensures var m' := MadtDiscovery(mem, t, m).value.0;
      MapValid(m') && m'.boot == m.boot && m'.slots[0] == m.boot &&
      MadtDiscovery(mem, t, m).value.1 == MadtAddress(mem, t) as u64 &&
      Dispatched(mem, MadtWalk(mem, t).calls, t + MADT_SIZE, t + TableLength(mem, t), MADT_PROC_IDS) &&
      Registered(mem, m', MadtWalk(mem, t).calls, t + TableLength(mem, t))
  {
    var end := t + TableLength(mem, t);
    var calls := MadtWalk(mem, t).calls;
    MadtWalkDispatched(mem, t);
    ApplyRegisters(mem, m, calls, end);
    assert MadtDiscovery(mem, t, m).value.0 == ApplyCalls(mem, m, calls, end).value;
  }

  /** Every call of the MADT walk goes to the LAPIC or the x2APIC handler according to the subtable's type. */
  lemma MadtWalkDispatched(mem: seq<u8>, t: nat)
    ensures Dispatched(mem, MadtWalk(mem, t).calls, t + MADT_SIZE, t + TableLength(mem, t), MADT_PROC_IDS)
  {
    WalkDispatch(mem, t + MADT_SIZE, t + TableLength(mem, t), MADT_PROC_IDS, MAX_LOCAL_APIC, 0);
  }

  /**
   * `acpi_parse_madt_lapic_entries`, with t the MADT `acpi_find_table`
   * returns: the handler calls of the walk of its subtables, and their
   * number when the walk does not BUG.
   */
  method MadtEntries(mem: seq<u8>, initialTables: array<u64>, t: u64) returns (count: int, calls: seq<Dispatch>, bug: bool)
    requires t != 0 && t == FindIn(mem, initialTables[..], SIG_MADT)
    ensures Walk(calls, bug) == MadtWalk(mem, t) && (!bug ==> count == |calls|)
  {
    var procCounts := new int[2](_ => 0);
    count, calls, bug := ParseEntriesArray(mem, initialTables, SIG_MADT, MADT_SIZE,
                                           MADT_PROC_IDS, procCounts, MAX_LOCAL_APIC);
  }

  // ---------------------------------------------------------------------
  // The kernel's state

  /** The globals of `kernel/apic.c`, and `acpi_lapic_addr`. */
  class ApicState {
    /** `cpuid_to_apicid`, of NR_CPUS slots. */
    const cpuidToApicid: array<u32>
    var nrLogicalCpuids: nat
    var bootCpuPhysicalApicid: u32
    var acpiLapicAddr: u64

    function Model(): CpuMap
      reads this, cpuidToApicid
    {
      CpuMap(cpuidToApicid[..], nrLogicalCpuids, bootCpuPhysicalApicid)
    }

    predicate Valid()
      reads this, cpuidToApicid
    {
      MapValid(Model())
    }

    /** The state at boot, for NR_CPUS = nrCpus, the local APIC at its default address lapicBase. */
    constructor(nrCpus: nat, lapicBase: u64)
      requires nrCpus >= 1
      ensures Model() == InitialMap(nrCpus) && Valid() && acpiLapicAddr == lapicBase
      ensures fresh(cpuidToApicid)
    {
      cpuidToApicid := new u32[nrCpus](_ => BAD_APICID);
      nrLogicalCpuids := 1;
      bootCpuPhysicalApicid := BAD_APICID;
      acpiLapicAddr := lapicBase;
      new;
      InitialMapValid(nrCpus);
    }

    /** The search loop of `acpi_register_lapic`: whether apicid is in slots [0, nr_logical_cpuids). */
    method IsAllocated(apicid: u32) returns (found: bool)
      requires nrLogicalCpuids <= cpuidToApicid.Length
      ensures found == Allocated(Model(), apicid)
    {
      var i := 0;
      while i < nrLogicalCpuids
        invariant i <= nrLogicalCpuids
        invariant apicid !in cpuidToApicid[..i]
      {
        assert cpuidToApicid[..i + 1] == cpuidToApicid[..i] + [cpuidToApicid[i]];
        if cpuidToApicid[i] == apicid {
          assert cpuidToApicid[..nrLogicalCpuids][i] == apicid;
          return true;
        }
        i := i + 1;
      }
      assert cpuidToApicid[..nrLogicalCpuids] == cpuidToApicid[..i];
      return false;
    }

    /** `acpi_register_lapic`; ok is false for a panic, which leaves the state as it was. */
    method RegisterLapic(apicid: u32, enabled: bool) returns (ok: bool)
      requires 1 <= nrLogicalCpuids <= cpuidToApicid.Length
      modifies this, cpuidToApicid
      ensures var r := Register(old(Model()), apicid, enabled);
        ok == r.Some? && Model() == if ok then r.value else old(Model())
      ensures acpiLapicAddr == old(acpiLapicAddr)
    {
      if !enabled {
        return false;
      }
      if apicid == bootCpuPhysicalApicid {
        cpuidToApicid[0] := apicid;
        return true;
      }
      var found := IsAllocated(apicid);
      if found {
        return true;
      }
      if nrLogicalCpuids >= cpuidToApicid.Length {
        return false;
      }
      cpuidToApicid[nrLogicalCpuids] := apicid;
      nrLogicalCpuids := nrLogicalCpuids + 1;
      return true;
    }

    /** `acpi_parse_lapic` (proc 0) or `acpi_parse_x2apic` for the subtable d hands over. */
    method ParseProcessor(mem: seq<u8>, d: Dispatch, end: nat) returns (ok: bool)
      requires 1 <= nrLogicalCpuids <= cpuidToApicid.Length
      modifies this, cpuidToApicid
      ensures var r := Handle(mem, old(Model()), d, end);
        ok == r.Some? && Model() == if ok then r.value else old(Model())
      ensures acpiLapicAddr == old(acpiLapicAddr)
    {
      if BadMadtEntry(mem, d.entry, end, ProcEntrySize(d.proc)) {
        return false;
      }
      var apicid: u32;
      var flags: u32;
      if d.proc == 0 {
        apicid := Peek(mem, d.entry + 3) as u32;
        flags := Le32(mem, d.entry + 4);
      } else {
        apicid := Le32(mem, d.entry + 4);
        flags := Le32(mem, d.entry + 8);
      }
      ok := RegisterLapic(apicid, flags % 2 == 1);
    }

    /** The handler calls of the MADT walk made in order, up to the first panic. */
    method ApplyWalk(mem: seq<u8>, calls: seq<Dispatch>, end: nat) returns (ok: bool)
      requires 1 <= nrLogicalCpuids <= cpuidToApicid.Length
      modifies this, cpuidToApicid
      ensures var r := ApplyCalls(mem, old(Model()), calls, end);
        ok == r.Some? && (ok ==> Model() == r.value)
      ensures acpiLapicAddr == old(acpiLapicAddr)
    {
      ghost var m0 := Model();
      var k := 0;
      while k < |calls|
        invariant k <= |calls| && 1 <= nrLogicalCpuids <= cpuidToApicid.Length
        invariant ApplyCalls(mem, m0, calls, end) == ApplyCalls(mem, Model(), calls[k..], end)
        invariant acpiLapicAddr == old(acpiLapicAddr)
      {
        assert calls[k..][1..] == calls[k + 1..];
        ok := ParseProcessor(mem, calls[k], end);
        if !ok {
          return false;
        }
        k := k + 1;
      }
      return true;
    }

    /**
     * The boot-CPU branch of `apic_init`, run when the boot CPU's APIC id
     * is still BAD_APICID; ok is false for a BUG or panic. The local APIC
     * programming that follows it is not part of this model.
     */
    method ApicInit(mem: seq<u8>, initialTables: array<u64>, readApicId: u32) returns (ok: bool)
      requires 1 <= nrLogicalCpuids <= cpuidToApicid.Length
      modifies this, cpuidToApicid
      ensures old(bootCpuPhysicalApicid) != BAD_APICID ==> ok && Model() == old(Model()) && acpiLapicAddr == old(acpiLapicAddr)
      ensures old(bootCpuPhysicalApicid) == BAD_APICID ==>
        var r := BootDiscovery(mem, initialTables[..], old(Model()), readApicId);
        ok == r.Some? && (ok ==> Model() == r.value.0 && acpiLapicAddr == r.value.1)
    {
      if bootCpuPhysicalApicid != BAD_APICID {
        return true;
      }
      var r, table := TableParse(mem, initialTables, SIG_MADT);
      if r != 0 {
        return false;
      }
      acpiLapicAddr := MadtAddress(mem, table.value) as u64;
      bootCpuPhysicalApicid := readApicId;
      ok := ParseMadt(mem, initialTables, table.value);
    }

    /**
     * `acpi_parse_madt_lapic_entries` on the MADT at t, the table
     * `acpi_find_table` returns, with the BUG_ON and the boot CPU check
     * after it.
     */
    method ParseMadt(mem: seq<u8>, initialTables: array<u64>, t: u64) returns (ok: bool)
      requires 1 <= nrLogicalCpuids <= cpuidToApicid.Length
      requires t != 0 && t == FindIn(mem, initialTables[..], SIG_MADT) && acpiLapicAddr == MadtAddress(mem, t) as u64
      modifies this, cpuidToApicid
      ensures var r := MadtDiscovery(mem, t, old(Model()));
        ok == r.Some? && (ok ==> Model() == r.value.0 && acpiLapicAddr == r.value.1)
    {
      var count, calls, bug := MadtEntries(mem, initialTables, t);
      ghost var m0 := Model();
      ghost var end := t + TableLength(mem, t);
      if bug {
        MadtDiscoveryIs(mem, t, m0, calls, bug, None);
        return false;
      }
      ok := ApplyWalk(mem, calls, t + TableLength(mem, t));
      MadtDiscoveryIs(mem, t, m0, calls, bug, ApplyCalls(mem, m0, calls, end));
      if !ok || count < 0 {
        return false;
      }
      if cpuidToApicid[0] != bootCpuPhysicalApicid {
        return false;
      }
    }
  }
}
