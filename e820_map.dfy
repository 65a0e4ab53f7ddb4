/**
 * The E820 physical memory map of kernel/e820.c and include/asm/e820.h:
 * entries, the address coverage they describe, and the reference
 * definitions the table operations are specified against.
 */
module E820Map {
  import opened Machine

  const E820_MAX_ENTRIES: nat := 128

  const E820_TYPE_RAM: u32 := 1
  const E820_TYPE_RESERVED: u32 := 2
  const E820_TYPE_ACPI: u32 := 3
  const E820_TYPE_NVS: u32 := 4
  const E820_TYPE_UNUSABLE: u32 := 5
  const E820_TYPE_PMEM: u32 := 7

  /** One map entry: the range [addr, addr + size) has memory type `kind` (the C field `type`). */
  datatype Entry = Entry(addr: u64, size: u64, kind: u32)

  function End(e: Entry): int { e.addr + e.size }

  /** `addr + size` overflows 64 bits: the C test `addr + size < addr`. */
  predicate Wraps(e: Entry) { e.addr + e.size >= U64_LIMIT }

  predicate NoWrap(t: seq<Entry>) { forall i :: 0 <= i < |t| ==> !Wraps(t[i]) }

  predicate Covers(e: Entry, x: int) { e.addr <= x < e.addr + e.size }

  /** The highest type among the entries of t that cover x; 0 when none does. */
  function TypeAt(t: seq<Entry>, x: int): (r: u32)
    ensures forall i :: 0 <= i < |t| && Covers(t[i], x) ==> t[i].kind <= r
    ensures r == 0 || exists i :: 0 <= i < |t| && Covers(t[i], x) && t[i].kind == r
  {
    if |t| == 0 then 0
    else
      var m := TypeAt(t[..|t| - 1], x);
      if Covers(t[|t| - 1], x) && t[|t| - 1].kind > m then t[|t| - 1].kind else m
  }

  /** The type of the last entry of t covering x; 0 when none does. */
  function CoverType(t: seq<Entry>, x: int): u32
  {
    if |t| == 0 then 0
    else if Covers(t[|t| - 1], x) then t[|t| - 1].kind
    else CoverType(t[..|t| - 1], x)
  }

  /** Entries in ascending address order, pairwise disjoint. */
  predicate Ascending(t: seq<Entry>)
  {
    forall i, j :: 0 <= i < j < |t| ==> End(t[i]) <= t[j].addr
  }

  /** The shape of a sanitized map: ascending, disjoint, non-empty, typed. */
  predicate Sanitized(t: seq<Entry>)
  {
    Ascending(t) && forall i :: 0 <= i < |t| ==> t[i].size > 0 && t[i].kind > 0
  }

  lemma {:induction false} CoverTypeAppend(t: seq<Entry>, e: Entry, x: int)
    ensures CoverType(t + [e], x) == if Covers(e, x) then e.kind else CoverType(t, x)
  {
    assert (t + [e])[..|t|] == t;
  }

  lemma {:induction false} CoverTypeBeyond(t: seq<Entry>, b: int, x: int)
    requires forall j :: 0 <= j < |t| ==> End(t[j]) <= b
    requires b <= x
    ensures CoverType(t, x) == 0
  {
    if |t| > 0 {
      CoverTypeBeyond(t[..|t| - 1], b, x);
    }
  }

  /** On a table whose entries are disjoint, CoverType is the type of the one entry covering x. */
  lemma {:induction false} CoverTypeUnique(t: seq<Entry>, i: nat, x: int)
    requires Ascending(t) && i < |t| && Covers(t[i], x)
    ensures CoverType(t, x) == t[i].kind
  {
    if i < |t| - 1 {
      assert End(t[i]) <= t[|t| - 1].addr;
      assert Ascending(t[..|t| - 1]);
      CoverTypeUnique(t[..|t| - 1], i, x);
    }
  }

  lemma {:induction false} CoverTypeIsCovering(t: seq<Entry>, x: int)
    requires CoverType(t, x) != 0
    ensures exists i :: 0 <= i < |t| && Covers(t[i], x) && t[i].kind == CoverType(t, x)
  {
    if !Covers(t[|t| - 1], x) {
      CoverTypeIsCovering(t[..|t| - 1], x);
      var i :| 0 <= i < |t| - 1 && Covers(t[..|t| - 1][i], x) && t[..|t| - 1][i].kind == CoverType(t, x);
      assert t[i] == t[..|t| - 1][i];
    }
  }

  /** Entries matching `kind` (0 matches every type) cover every address of [start, end). */
  ghost predicate CoveredAll(t: seq<Entry>, start: int, end: int, kind: u32)
  {
    forall x :: start <= x < end ==> CoveredAt(t, x, kind)
  }

  /** Some entry matching `kind` (0 matches every type) covers x. */
  ghost predicate CoveredAt(t: seq<Entry>, x: int, kind: u32)
  {
    exists i :: 0 <= i < |t| && (kind == 0 || t[i].kind == kind) && Covers(t[i], x)
  }

  /** The page frame numbers of an entry's first byte and of the byte just past it (`unsigned long` arithmetic). */
  function StartPfn(e: Entry): u64 { e.addr / 0x1000 }
  function EndPfn(e: Entry): u64 { ((e.addr + e.size) % U64_LIMIT) / 0x1000 }

  /** What one entry contributes to e820_end_pfn: its end pfn clamped to limit, when it has `kind` and starts below limit. */
  function PfnContribution(e: Entry, limit: int, kind: u32): int
  {
    if e.kind == kind && StartPfn(e) < limit then (if EndPfn(e) < limit then EndPfn(e) else limit) else 0
  }

  /** The largest end pfn, clamped to limit, over entries of `kind` that start below limit; 0 when none. */
  function LastPfn(t: seq<Entry>, limit: int, kind: u32): (r: int)
    ensures r >= 0
  {
    if |t| == 0 then 0
    else
      var m := LastPfn(t[..|t| - 1], limit, kind);
      var c := PfnContribution(t[|t| - 1], limit, kind);
      if c > m then c else m
  }

  /** LastPfn is the maximum: no matching entry contributes more, and a non-zero result is some entry's contribution. */
  lemma {:induction false} LastPfnIsMax(t: seq<Entry>, limit: int, kind: u32)
    ensures forall i :: 0 <= i < |t| && t[i].kind == kind && StartPfn(t[i]) < limit ==>
      (if EndPfn(t[i]) < limit then EndPfn(t[i]) else limit) <= LastPfn(t, limit, kind)
    ensures LastPfn(t, limit, kind) == 0 || exists i :: (0 <= i < |t| && t[i].kind == kind && StartPfn(t[i]) < limit &&
      LastPfn(t, limit, kind) == (if EndPfn(t[i]) < limit then EndPfn(t[i]) else limit))
  {
    if |t| > 0 {
      var p := t[..|t| - 1];
      LastPfnIsMax(p, limit, kind);
      forall i | 0 <= i < |p| ensures t[i] == p[i] {}
    }
  }

  lemma LastPfnStep(t: seq<Entry>, i: nat, limit: int, kind: u32)
    requires i < |t|
    ensures LastPfn(t[..i + 1], limit, kind) ==
      var m := LastPfn(t[..i], limit, kind);
      var c := PfnContribution(t[i], limit, kind);
      if c > m then c else m
  {
    assert t[..i + 1][..i] == t[..i];
  }
}
