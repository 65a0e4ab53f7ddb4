/**
 * The interrupt descriptor table, kernel/idt.c: the static gate tables,
 * `idt_init_desc`, `idt_setup_from_table` and the setup routines built on
 * it, which fill the 256-entry `idt_table` and keep the `system_vectors`
 * bitmap of vectors already claimed, and the ESR decoding of
 * `smp_error_interrupt`.
 *
 * Handler entry points are link-time addresses; they are a parameter
 * (`Handlers`).  `load_idt` (the `lidt` instruction) and the printing are
 * not modelled; `BUG_ON` becomes a precondition.
 */
module Idt {
  import opened Machine
  import Bitops
  import Desc

  type GateDesc = Desc.GateDesc
  type IdtBits = Desc.IdtBits

  // Vectors, include/asm/traps.h and include/asm/irq.h.
  const X86_TRAP_DE := 0
  const X86_TRAP_OF := 4
  const X86_TRAP_BR := 5
  const X86_TRAP_UD := 6
  const X86_TRAP_NM := 7
  const X86_TRAP_DF := 8
  const X86_TRAP_OLD_MF := 9
  const X86_TRAP_TS := 10
  const X86_TRAP_NP := 11
  const X86_TRAP_SS := 12
  const X86_TRAP_GP := 13
  const X86_TRAP_PF := 14
  const X86_TRAP_SPURIOUS := 15
  const X86_TRAP_MF := 16
  const X86_TRAP_AC := 17
  const X86_TRAP_XF := 19
  const FIRST_EXTERNAL_VECTOR := 0x20
  const SPURIOUS_APIC_VECTOR := 0xff
  const ERROR_APIC_VECTOR := 0xfe
  const LOCAL_TIMER_VECTOR := 0xee
  const NR_VECTORS := 256
  const IDT_ENTRIES := 256

  const DPL0 := 0
  const DPL3 := 3
  const DEFAULT_STACK := 0
  /** include/asm/threads.h */
  const DOUBLEFAULT_STACK := 1
  /** `GDT_ENTRY_KERNEL_CS * 8`, include/asm/segment.h */
  const KERNEL_CS := 16
  /** `__ENTRY_OFFSET`, include/asm/setup.h: where shared kernel entries are mapped. */
  const ENTRY_OFFSET := 0xffff_8000_0000_0000
  /** `BITS_TO_LONGS(NR_VECTORS)` */
  const SYSTEM_VECTOR_WORDS := 4

  /** `struct idt_data` */
  datatype IdtData = IdtData(vector: nat, segment: nat, bits: IdtBits, addr: u64)

  /** The addresses of the entry stubs the tables name. */
  datatype Handlers = Handlers(
    divideError: u64, bounds: u64, invalidOp: u64, deviceNotAvailable: u64,
    coprocessorSegmentOverrun: u64, invalidTss: u64, segmentNotPresent: u64, stackSegment: u64,
    generalProtection: u64, pageFault: u64, spuriousInterruptBug: u64, coprocessorError: u64,
    alignmentCheck: u64, simdCoprocessorError: u64, doubleFault: u64, overflow: u64,
    apicTimerInterrupt: u64, spuriousInterrupt: u64, errorInterrupt: u64)

  /** The `G` macro: a present gate. */
  function G(vector: nat, addr: u64, ist: nat, gType: nat, dpl: nat, segment: nat): IdtData
  {
    IdtData(vector, segment, Desc.IdtBits(ist, 0, gType, dpl, 1), addr)
  }

  function Intg(vector: nat, addr: u64): IdtData
  {
    G(vector, addr, DEFAULT_STACK, Desc.GATE_INTERRUPT, DPL0, KERNEL_CS)
  }

  function Sysg(vector: nat, addr: u64): IdtData
  {
    G(vector, addr, DEFAULT_STACK, Desc.GATE_INTERRUPT, DPL3, KERNEL_CS)
  }

  function Istg(vector: nat, addr: u64, ist: nat): IdtData
  {
    G(vector, addr, ist, Desc.GATE_INTERRUPT, DPL0, KERNEL_CS)
  }

  /** `def_idts` */
  function DefIdts(h: Handlers): seq<IdtData>
  {
    [Intg(X86_TRAP_DE, h.divideError),
     Intg(X86_TRAP_BR, h.bounds),
     Intg(X86_TRAP_UD, h.invalidOp),
     Intg(X86_TRAP_NM, h.deviceNotAvailable),
     Intg(X86_TRAP_OLD_MF, h.coprocessorSegmentOverrun),
     Intg(X86_TRAP_TS, h.invalidTss),
     Intg(X86_TRAP_NP, h.segmentNotPresent),
     Intg(X86_TRAP_SS, h.stackSegment),
     Intg(X86_TRAP_GP, h.generalProtection),
     Intg(X86_TRAP_PF, h.pageFault),
     Intg(X86_TRAP_SPURIOUS, h.spuriousInterruptBug),
     Intg(X86_TRAP_MF, h.coprocessorError),
     Intg(X86_TRAP_AC, h.alignmentCheck),
     Intg(X86_TRAP_XF, h.simdCoprocessorError),
     Intg(X86_TRAP_DF, h.doubleFault),
     Sysg(X86_TRAP_OF, h.overflow)]
  }

  /** `apic_idts` */
  function ApicIdts(h: Handlers): seq<IdtData>
  {
    [Intg(LOCAL_TIMER_VECTOR, h.apicTimerInterrupt),
     Intg(SPURIOUS_APIC_VECTOR, h.spuriousInterrupt),
     Intg(ERROR_APIC_VECTOR, h.errorInterrupt)]
  }

  /** `ist_idts` */
  function IstIdts(h: Handlers): seq<IdtData>
  {
    [Istg(X86_TRAP_DF, h.doubleFault, DOUBLEFAULT_STACK)]
  }

  /** Every entry names a vector the 256-entry table has. */
  predicate InRange(ds: seq<IdtData>)
  {
    forall i :: 0 <= i < |ds| ==> ds[i].vector < IDT_ENTRIES
  }

  /** No two entries name the same vector. */
  predicate DistinctVectors(ds: seq<IdtData>)
  {
    forall i, j :: 0 <= i < j < |ds| ==> ds[i].vector != ds[j].vector
  }

  /** The vectors a table names. */
  function Vectors(ds: seq<IdtData>): (r: set<nat>)
    ensures forall i :: 0 <= i < |ds| ==> ds[i].vector in r
    ensures forall v :: v in r ==> exists i :: 0 <= i < |ds| && ds[i].vector == v
  {
    if |ds| == 0 then {} else Vectors(ds[..|ds| - 1]) + {ds[|ds| - 1].vector}
  }

  /**
   * The three static tables fit the IDT and name each vector once; all
   * their gates are present interrupt gates on KERNEL_CS.
   */
  lemma TablesWellFormed(h: Handlers)
    ensures InRange(DefIdts(h)) && InRange(ApicIdts(h)) && InRange(IstIdts(h))
    ensures DistinctVectors(DefIdts(h)) && DistinctVectors(ApicIdts(h))
    ensures forall i :: 0 <= i < |DefIdts(h)| ==>
      var d := DefIdts(h)[i];
      d.segment == KERNEL_CS && d.bits.gType == Desc.GATE_INTERRUPT && d.bits.p == 1 && d.bits.ist == DEFAULT_STACK
  {
  }

  /** Of the default traps only the overflow trap is callable from ring 3. */
  lemma OnlyOverflowIsDpl3(h: Handlers)
    ensures forall i :: 0 <= i < |DefIdts(h)| ==>
      DefIdts(h)[i].bits.dpl == if DefIdts(h)[i].vector == X86_TRAP_OF then DPL3 else DPL0
  {
  }

  /** `__ENTRY_ADDR(addr)` in 64-bit arithmetic. */
  function EntryAddr(addr: u64): (r: u64)
  {
    (addr + ENTRY_OFFSET) % U64_LIMIT
  }

  /** `idt_init_desc(gate, d)` */
  function InitDesc(d: IdtData): (r: GateDesc)
  {
    var a := EntryAddr(d.addr);
    Desc.GateDesc(a % 0x1_0000, d.segment % 0x1_0000, d.bits, (a / 0x1_0000) % 0x1_0000,
                  (a / 0x1_0000_0000) % 0x1_0000_0000, 0)
  }

  /** The handler offset a gate points the processor at. */
  function GateOffset(g: GateDesc): nat
  {
    g.offsetLow + 0x1_0000 * g.offsetMiddle + 0x1_0000_0000 * g.offsetHigh
  }

  /**
   * The gate `idt_init_desc` builds points at the entry alias of the
   * handler: its three offset pieces fit 16/16/32 bits and recombine to
   * `__ENTRY_ADDR(addr)`; the segment is truncated to 16 bits, the bits
   * are copied and the reserved word is zero.
   */
  lemma InitDescRoundTrip(d: IdtData)
    ensures var g := InitDesc(d);
      && g.offsetLow < 0x1_0000 && g.offsetMiddle < 0x1_0000 && g.offsetHigh < 0x1_0000_0000
      && GateOffset(g) == EntryAddr(d.addr)
      && g.segment == d.segment % 0x1_0000 && g.bits == d.bits && g.reserved == 0
  {
    var a := EntryAddr(d.addr);
    ModSplit(a, 0x1_0000, 0x1_0000);
    assert a / 0x1_0000_0000 < 0x1_0000_0000;
  }

  /**
   * The IDT after `idt_setup_from_table` has installed the entries of ds,
   * in order, each at its own vector.
   */
  function Installed(t: seq<GateDesc>, ds: seq<IdtData>): (r: seq<GateDesc>)
    requires |t| == IDT_ENTRIES && InRange(ds)
    ensures |r| == IDT_ENTRIES
  {
    if |ds| == 0 then t
    else
      var last := ds[|ds| - 1];
      Installed(t, ds[..|ds| - 1])[last.vector := InitDesc(last)]
  }

  /** The bitmap after every vector of ds has been set in it. */
  function MarkAll(w: seq<Bitops.Word>, ds: seq<IdtData>): (r: seq<Bitops.Word>)
    requires |w| == SYSTEM_VECTOR_WORDS && InRange(ds)
    ensures |r| == SYSTEM_VECTOR_WORDS
  {
    if |ds| == 0 then w
    else Bitops.SetWord(MarkAll(w, ds[..|ds| - 1]), ds[|ds| - 1].vector)
  }

  /** A slot no entry of ds names keeps its gate. */
  lemma {:induction false} InstalledElsewhere(t: seq<GateDesc>, ds: seq<IdtData>, v: nat)
    requires |t| == IDT_ENTRIES && InRange(ds) && v < IDT_ENTRIES
    requires forall i :: 0 <= i < |ds| ==> ds[i].vector != v
    ensures Installed(t, ds)[v] == t[v]
  {
    if |ds| > 0 {
      InstalledElsewhere(t, ds[..|ds| - 1], v);
    }
  }

  /** When the vectors are distinct, the slot of entry i holds that entry's gate. */
  lemma {:induction false} InstalledAt(t: seq<GateDesc>, ds: seq<IdtData>, i: nat)
    requires |t| == IDT_ENTRIES && InRange(ds) && DistinctVectors(ds) && i < |ds|
    ensures Installed(t, ds)[ds[i].vector] == InitDesc(ds[i])
  {
    if i < |ds| - 1 {
      InstalledAt(t, ds[..|ds| - 1], i);
    }
  }

  /** A vector is marked after MarkAll iff it was marked before or ds names it. */
  lemma {:induction false} MarkAllBits(w: seq<Bitops.Word>, ds: seq<IdtData>, v: nat)
    requires |w| == SYSTEM_VECTOR_WORDS && InRange(ds) && v < NR_VECTORS
    ensures Bitops.TestBit(MarkAll(w, ds), v) == (Bitops.TestBit(w, v) || v in Vectors(ds))
  {
    if |ds| > 0 {
      MarkAllBits(w, ds[..|ds| - 1], v);
      Bitops.SetWordBits(MarkAll(w, ds[..|ds| - 1]), ds[|ds| - 1].vector, v);
    }
  }

  /** The gate `set_intr_gate(n, addr)` installs. */
  function IntrData(n: nat, addr: u64): IdtData
  {
    IdtData(n, KERNEL_CS, Desc.IdtBits(0, 0, Desc.GATE_INTERRUPT, 0, 1), addr)
  }

  /**
   * `set_intr_gate` installs a present DPL-0 interrupt gate on KERNEL_CS
   * that uses the current stack (IST 0) and enters at the handler's alias.
   */
  lemma IntrGateShape(n: nat, addr: u64)
    ensures var g := InitDesc(IntrData(n, addr));
      && g.segment == KERNEL_CS && GateOffset(g) == EntryAddr(addr) && g.reserved == 0
      && g.bits.p == 1 && g.bits.dpl == DPL0 && g.bits.ist == 0 && g.bits.gType == Desc.GATE_INTERRUPT
  {
    InitDescRoundTrip(IntrData(n, addr));
  }

  /**
   * After `idt_setup_traps` and then `idt_setup_ist_traps`, double fault
   * runs on interrupt stack 1, the overflow trap is the one ring-3 gate and
   * every other default trap is DPL 0.
   */
  lemma TrapGates(t: seq<GateDesc>, h: Handlers)
    requires |t| == IDT_ENTRIES
    ensures InRange(DefIdts(h)) && InRange(IstIdts(h))
    ensures var t' := Installed(Installed(t, DefIdts(h)), IstIdts(h));
      && t'[X86_TRAP_DF].bits.ist == DOUBLEFAULT_STACK
      && t'[X86_TRAP_OF].bits.dpl == DPL3
      && forall i :: 0 <= i < |DefIdts(h)| ==>
        t'[DefIdts(h)[i].vector].bits.dpl == if DefIdts(h)[i].vector == X86_TRAP_OF then DPL3 else DPL0
  {
    TablesWellFormed(h);
    OnlyOverflowIsDpl3(h);
    var ds := DefIdts(h);
    var t1 := Installed(t, ds);
    InstalledAt(t1, IstIdts(h), 0);
    assert InitDesc(IstIdts(h)[0]).bits.ist == DOUBLEFAULT_STACK;
    forall i | 0 <= i < |ds|
      ensures Installed(t1, IstIdts(h))[ds[i].vector].bits.dpl == if ds[i].vector == X86_TRAP_OF then DPL3 else DPL0
    {
      InstalledAt(t, ds, i);
    }
    assert ds[15].vector == X86_TRAP_OF;
  }

  /** `idt_descr`: the operand of `lidt`. */
  datatype DescPtr = DescPtr(size: nat, address: u64)

  /** The IDT pointer covers exactly the 256 sixteen-byte gates, at the table's alias. */
  function IdtDescr(tableAddr: u64): (r: DescPtr)
    ensures r.size + 1 == 16 * IDT_ENTRIES && r.size < 0x1_0000
  {
    DescPtr(IDT_ENTRIES * 16 - 1, EntryAddr(tableAddr))
  }

  /**
   * `idt_table` and `system_vectors`: the gates and the bitmap of vectors
   * whose gates are fixed.
   */
  class InterruptTable {
    const table: array<GateDesc>
    const systemVectors: array<Bitops.Word>

    ghost predicate Valid()
      reads this
    {
      && table.Length == IDT_ENTRIES && systemVectors.Length == SYSTEM_VECTOR_WORDS
      && table as object != systemVectors
    }

    /** Both start zeroed, as static storage does. */
    constructor ()
      ensures Valid()
      ensures fresh(table) && fresh(systemVectors)
      ensures forall v :: 0 <= v < IDT_ENTRIES ==> table[v] == Desc.EMPTY_GATE
      ensures forall k :: 0 <= k < SYSTEM_VECTOR_WORDS ==> systemVectors[k] == 0
    {
      table := new GateDesc[IDT_ENTRIES](_ => Desc.EMPTY_GATE);
      systemVectors := new Bitops.Word[SYSTEM_VECTOR_WORDS](_ => 0);
    }

    /** A vector is marked in `system_vectors`. */
    predicate Marked(v: nat)
      requires Valid()
      reads this, systemVectors
    {
      v < NR_VECTORS && Bitops.TestBit(systemVectors[..], v)
    }

    /**
     * `idt_setup_from_table(idt_table, ds, |ds|, sys)`: each entry's gate
     * is written at its vector, in order, and, when sys, its vector is
     * marked.
     */
    method SetupFromTable(ds: seq<IdtData>, sys: bool)
      requires Valid() && InRange(ds)
      modifies table, systemVectors
      ensures table[..] == Installed(old(table[..]), ds)
      ensures systemVectors[..] == if sys then MarkAll(old(systemVectors[..]), ds) else old(systemVectors[..])
    {
      for i := 0 to |ds|
        invariant table[..] == Installed(old(table[..]), ds[..i])
        invariant systemVectors[..] == if sys then MarkAll(old(systemVectors[..]), ds[..i]) else old(systemVectors[..])
      {
        var desc := InitDesc(ds[i]);
        Desc.WriteIdtEntry(table, ds[i].vector, desc);
        if sys {
          Bitops.SetBit(ds[i].vector, systemVectors);
        }
        assert ds[..i + 1][..i] == ds[..i];
      }
      assert ds[..|ds|] == ds;
    }

    /** `set_intr_gate(n, addr)`: one gate is replaced and the bitmap is left alone. */
    method SetIntrGate(n: nat, addr: u64)
      requires Valid() && n <= 0xff
      modifies table, systemVectors
      ensures table[..] == old(table[..])[n := InitDesc(IntrData(n, addr))]
      ensures systemVectors[..] == old(systemVectors[..])
    {
      SetupFromTable([IntrData(n, addr)], false);
      assert [IntrData(n, addr)][..0] == [];
    }

    /** `idt_setup_traps` (without the `lidt`). */
    method SetupTraps(h: Handlers)
      requires Valid()
      modifies table, systemVectors
      ensures InRange(DefIdts(h))
      ensures table[..] == Installed(old(table[..]), DefIdts(h))
      ensures systemVectors[..] == MarkAll(old(systemVectors[..]), DefIdts(h))
    {
      TablesWellFormed(h);
      SetupFromTable(DefIdts(h), true);
    }

    /** `idt_setup_ist_traps` */
    method SetupIstTraps(h: Handlers)
      requires Valid()
      modifies table, systemVectors
      ensures InRange(IstIdts(h))
      ensures table[..] == Installed(old(table[..]), IstIdts(h))
      ensures systemVectors[..] == MarkAll(old(systemVectors[..]), IstIdts(h))
    {
      TablesWellFormed(h);
      SetupFromTable(IstIdts(h), true);
    }

    /**
     * One iteration of the `for_each_clear_bit_from` loop: vector i is
     * marked and given the spurious handler.
     */
    method ClaimVector(i: nat, addr: u64)
      requires Valid() && FIRST_EXTERNAL_VECTOR <= i < NR_VECTORS
      modifies table, systemVectors
      ensures table[..] == old(table[..])[i := InitDesc(IntrData(i, addr))]
      ensures forall v :: 0 <= v < NR_VECTORS ==>
        Bitops.TestBit(systemVectors[..], v) == (v == i || Bitops.TestBit(old(systemVectors[..]), v))
    {
      Bitops.SetBit(i, systemVectors);
      ghost var marked := systemVectors[..];
      SetIntrGate(i, addr);
      forall v | 0 <= v < NR_VECTORS
        ensures Bitops.TestBit(marked, v) == (v == i || Bitops.TestBit(old(systemVectors[..]), v))
      {
        Bitops.SetWordBits(old(systemVectors[..]), i, v);
      }
    }

    /**
     * `idt_setup_apic_and_irq_gates`: the APIC gates are installed and
     * marked; then every external vector not yet marked is marked and gets
     * the spurious handler, while marked vectors keep their gates.
     */
    method SetupApicAndIrqGates(h: Handlers)
      requires Valid()
      modifies table, systemVectors
      ensures InRange(ApicIdts(h))
      ensures var mid := Installed(old(table[..]), ApicIdts(h));
        var before := MarkAll(old(systemVectors[..]), ApicIdts(h));
        && (forall v :: 0 <= v < NR_VECTORS ==>
              Bitops.TestBit(systemVectors[..], v) == (FIRST_EXTERNAL_VECTOR <= v || Bitops.TestBit(before, v)))
        && (forall v :: 0 <= v < IDT_ENTRIES ==>
              table[v] == if FIRST_EXTERNAL_VECTOR <= v && !Bitops.TestBit(before, v)
                          then InitDesc(IntrData(v, h.spuriousInterrupt)) else mid[v])
    {
      TablesWellFormed(h);
      SetupFromTable(ApicIdts(h), true);
      ghost var mid := table[..];
      ghost var before := systemVectors[..];
      var i := Bitops.FindNextZeroBit(systemVectors[..], NR_VECTORS, FIRST_EXTERNAL_VECTOR);
      SpuriousStart(before, mid, i, h.spuriousInterrupt);
      while i < NR_VECTORS
        invariant FIRST_EXTERNAL_VECTOR <= i <= NR_VECTORS
        invariant i < NR_VECTORS ==> !Bitops.TestBit(before, i)
        invariant MarkedBelow(systemVectors[..], before, i)
        invariant SpuriousBelow(table[..], mid, before, i, h.spuriousInterrupt)
        decreases NR_VECTORS - i
      {
        ghost var sv := systemVectors[..];
        ghost var t := table[..];
        ClaimVector(i, h.spuriousInterrupt);
        var next := Bitops.FindNextZeroBit(systemVectors[..], NR_VECTORS, i + 1);
        SpuriousStep(sv, systemVectors[..], t, mid, before, i, next, h.spuriousInterrupt);
        i := next;
      }
    }

    /** `update_intr_gate(n, addr)`: only a marked vector may be redirected. */
    method UpdateIntrGate(n: nat, addr: u64)
      requires Valid() && n <= 0xff && Marked(n)
      modifies table, systemVectors
      ensures table[..] == old(table[..])[n := InitDesc(IntrData(n, addr))]
      ensures systemVectors[..] == old(systemVectors[..])
    {
      SetIntrGate(n, addr);
    }
  }

  /** The external vectors below i are marked, and the others are marked exactly as in before. */
  ghost predicate MarkedBelow(sv: seq<Bitops.Word>, before: seq<Bitops.Word>, i: nat)
    requires 4 <= |sv| && 4 <= |before|
  {
    forall v :: 0 <= v < NR_VECTORS ==>
      Bitops.TestBit(sv, v) == ((FIRST_EXTERNAL_VECTOR <= v < i) || Bitops.TestBit(before, v))
  }

  /** The external vectors below i that before left unmarked have the spurious gate; every other slot is as in mid. */
  ghost predicate SpuriousBelow(t: seq<GateDesc>, mid: seq<GateDesc>, before: seq<Bitops.Word>, i: nat, addr: u64)
    requires |t| == IDT_ENTRIES && |mid| == IDT_ENTRIES && 4 <= |before|
  {
    forall v :: 0 <= v < IDT_ENTRIES ==>
      t[v] == if FIRST_EXTERNAL_VECTOR <= v < i && !Bitops.TestBit(before, v)
              then InitDesc(IntrData(v, addr)) else mid[v]
  }

  /** Before the loop: the vectors from 0x20 below the first clear one are all marked already. */
  lemma SpuriousStart(before: seq<Bitops.Word>, mid: seq<GateDesc>, i: nat, addr: u64)
    requires |before| == SYSTEM_VECTOR_WORDS && |mid| == IDT_ENTRIES
    requires i == Bitops.FindNextZeroBit(before, NR_VECTORS, FIRST_EXTERNAL_VECTOR)
    ensures i < NR_VECTORS ==> FIRST_EXTERNAL_VECTOR <= i && !Bitops.TestBit(before, i)
    ensures MarkedBelow(before, before, i) && SpuriousBelow(mid, mid, before, i, addr)
  {
  }

  /** One claimed vector i, and the search for the next clear one. */
  lemma SpuriousStep(sv: seq<Bitops.Word>, sv': seq<Bitops.Word>, t: seq<GateDesc>, mid: seq<GateDesc>,
                     before: seq<Bitops.Word>, i: nat, next: nat, addr: u64)
    requires |sv| == |sv'| == |before| == SYSTEM_VECTOR_WORDS && |t| == |mid| == IDT_ENTRIES
    requires FIRST_EXTERNAL_VECTOR <= i < NR_VECTORS && !Bitops.TestBit(before, i)
    requires MarkedBelow(sv, before, i) && SpuriousBelow(t, mid, before, i, addr)
    requires forall v :: 0 <= v < NR_VECTORS ==> Bitops.TestBit(sv', v) == (v == i || Bitops.TestBit(sv, v))
    requires next == Bitops.FindNextZeroBit(sv', NR_VECTORS, i + 1)
    ensures next < NR_VECTORS ==> i < next && !Bitops.TestBit(before, next)
    ensures MarkedBelow(sv', before, next)
    ensures SpuriousBelow(t[i := InitDesc(IntrData(i, addr))], mid, before, next, addr)
  {
    forall v | i < v < next
      ensures Bitops.TestBit(before, v)
    {
      assert Bitops.TestBit(sv', v);
    }
  }

  /** `error_interrupt_reason[]`: APIC ESR bits 0..7. */
  const ERROR_INTERRUPT_REASON: seq<string> := [
    "Send CS error", "Receive CS error", "Send accept error", "Receive accept error",
    "Redirectable IPI", "Send illegal vector", "Received illegal vector", "Illegal register address"]

  /** The reason indices the loop reports for the remaining bits v, bit 0 being reason i. */
  function ReasonsFrom(v: nat, i: nat): seq<nat>
    decreases v
  {
    if v == 0 then []
    else (if v % 2 == 1 then [i] else []) + ReasonsFrom(v / 2, i + 1)
  }

  /**
   * The `while (v)` loop of `smp_error_interrupt` on `v & 0xff`: each
   * set bit reports its reason, lowest bit first.
   */
  method ErrorReasons(esr: u32) returns (reported: seq<nat>)
    ensures reported == ReasonsFrom(esr % 0x100, 0)
  {
    var v: nat := esr % 0x100;
    var i: nat := 0;
    reported := [];
    while v != 0
      invariant reported + ReasonsFrom(v, i) == ReasonsFrom(esr % 0x100, 0)
      decreases v
    {
      ghost var here: seq<nat> := if v % 2 == 1 then [i] else [];
      assert ReasonsFrom(v, i) == here + ReasonsFrom(v / 2, i + 1);
      assert reported + ReasonsFrom(v, i) == (reported + here) + ReasonsFrom(v / 2, i + 1);
      if v % 2 == 1 {
        reported := reported + [i];
      }
      i := i + 1;
      v := v / 2;
    }
  }

  /** What ReasonsFrom reports: the positions of the set bits of v, offset by i, ascending. */
  lemma {:induction false} ReasonsFromBits(v: nat, i: nat, k: nat)
    ensures k in ReasonsFrom(v, i) <==> i <= k && Bitops.Bit(v, k - i)
    ensures forall a, b :: 0 <= a < b < |ReasonsFrom(v, i)| ==> ReasonsFrom(v, i)[a] < ReasonsFrom(v, i)[b]
    ensures forall a :: 0 <= a < |ReasonsFrom(v, i)| ==> i <= ReasonsFrom(v, i)[a]
    decreases v
  {
    if v == 0 {
      if i <= k {
        Bitops.BitZero(k - i);
      }
    } else {
      ReasonsFromBits(v / 2, i + 1, k);
      if i < k {
        assert Bitops.Bit(v, k - i) == Bitops.Bit(v / 2, k - (i + 1));
      }
    }
  }

  /**
   * `smp_error_interrupt` names reason k exactly when ESR bit k (k < 8) is
   * set, in ascending bit order, so every index names one of the eight
   * reasons.
   */
  lemma ErrorReasonsMeaning(esr: u32, k: nat)
    ensures k in ReasonsFrom(esr % 0x100, 0) <==> k < 8 && Bitops.Bit(esr, k)
    ensures var r := ReasonsFrom(esr % 0x100, 0);
      (forall a, b :: 0 <= a < b < |r| ==> r[a] < r[b]) && (forall a :: 0 <= a < |r| ==> r[a] < |ERROR_INTERRUPT_REASON|)
  {
    ReasonsFromBits(esr % 0x100, 0, k);
    EsrLowBit(esr, k);
    ReasonsBelowEight(esr);
  }

  /** `esr & 0xff` is the low byte of esr. */
  lemma EsrLowByte(esr: nat)
    ensures Bitops.Low(esr, 8) == esr % 0x100
  {
    Bitops.LowIsMod(esr, 8);
    assert Pow2(8) == 0x100 by {
      assert Pow2(4) == 16;
    }
  }

  /** Bit k of the low byte of esr is bit k of esr for k < 8, and clear above. */
  lemma EsrLowBit(esr: nat, k: nat)
    ensures Bitops.Bit(esr % 0x100, k) == (k < 8 && Bitops.Bit(esr, k))
  {
    EsrLowByte(esr);
    Bitops.LowBit(esr, 8, k);
  }

  /** Every reason reported for the low byte of esr is one of the eight. */
  lemma ReasonsBelowEight(esr: nat)
    ensures forall a :: 0 <= a < |ReasonsFrom(esr % 0x100, 0)| ==> ReasonsFrom(esr % 0x100, 0)[a] < 8
  {
    var r := ReasonsFrom(esr % 0x100, 0);
    forall a | 0 <= a < |r|
      ensures r[a] < 8
    {
      ReasonsFromBits(esr % 0x100, 0, r[a]);
      EsrLowBit(esr, r[a]);
    }
  }

  /** The reasons printed, by name. */
  function ReasonNames(reported: seq<nat>): (r: seq<string>)
    requires forall a :: 0 <= a < |reported| ==> reported[a] < |ERROR_INTERRUPT_REASON|
    ensures |r| == |reported|
    ensures forall a :: 0 <= a < |r| ==> r[a] == ERROR_INTERRUPT_REASON[reported[a]]
  {
    if |reported| == 0 then [] else [ERROR_INTERRUPT_REASON[reported[0]]] + ReasonNames(reported[1..])
  }
}
