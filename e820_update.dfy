/**
 * `__e820_range_update` of kernel/e820.c as functions on the entry
 * sequence: the loop visits every slot below the (growing) entry count,
 * retypes entries of the old type that lie inside [start, end), splits an
 * entry that strictly contains the range, and trims a partially overlapping
 * entry while appending its overlap with the new type. The table method in
 * module E820 is proved equal to `UpdateFrom`.
 */
module E820Update {
  import opened Machine
  import opened Types
  import opened E820Map

  /** `__e820_range_add`: a full table ignores the entry. */
  function Append(t: seq<Entry>, e: Entry): seq<Entry>
  {
    if |t| >= E820_MAX_ENTRIES then t else t + [e]
  }

  /** One call's parameters once the size is clamped: end == start + size cannot wrap. */
  datatype Update = Update(start: u64, size: u64, end: u64, oldType: u32, newType: u32)

  predicate ValidUpdate(u: Update)
  {
    u.end == u.start + u.size && u.oldType != u.newType
  }

  /** The size clamp: `size > ULLONG_MAX - start` becomes `ULLONG_MAX - start`. */
  function ClampSize(start: u64, size: u64): (r: u64)
    ensures start + r < U64_LIMIT
    ensures start + size < U64_LIMIT ==> r == size
    ensures r <= size
  {
    if size > U64_LIMIT - 1 - start then U64_LIMIT - 1 - start else size
  }

  function MakeUpdate(start: u64, size: u64, oldType: u32, newType: u32): (u: Update)
    requires oldType != newType
    ensures ValidUpdate(u)
  {
    var s := ClampSize(start, size);
    Update(start, s, start + s, oldType, newType)
  }

  /**
   * The body of the loop for slot i: the new table and the number of bytes
   * it adds to `real_updated_size`.
   */
  function UpdateEntry(t: seq<Entry>, i: nat, u: Update): (r: (seq<Entry>, u64))
    requires i < |t| <= E820_MAX_ENTRIES && ValidUpdate(u)
    ensures |t| <= |r.0| <= E820_MAX_ENTRIES && |r.0| <= |t| + 2
  {
    var e := t[i];
    if e.kind != u.oldType then (t, 0)
    else
      var entryEnd := (e.addr + e.size) % U64_LIMIT;
      if e.addr >= u.start && entryEnd <= u.end then
        (t[i := e.(kind := u.newType)], e.size)
      else if e.addr < u.start && entryEnd > u.end then
        var t1 := Append(t, Entry(u.start, u.size, u.newType));
        var t2 := Append(t1, Entry(u.end, entryEnd - u.end, e.kind));
        (t2[i := e.(size := u.start - e.addr)], u.size)
      else
        var finalStart := Max(u.start, e.addr);
        var finalEnd := Min(u.end, entryEnd);
        if finalStart >= finalEnd then (t, 0)
        else
          var t1 := Append(t, Entry(finalStart, finalEnd - finalStart, u.newType));
          var size := (e.size - (finalEnd - finalStart)) % U64_LIMIT;
          if e.addr < finalStart then (t1[i := e.(size := size)], finalEnd - finalStart)
          else (t1[i := e.(size := size, addr := finalEnd)], finalEnd - finalStart)
  }

  /**
   * The loop body changes only slot i, which keeps its entry or ends up
   * with the old or the new type, and appends only inert pieces.
   */
  lemma UpdateEntryFacts(t: seq<Entry>, i: nat, u: Update)
    requires i < |t| <= E820_MAX_ENTRIES && ValidUpdate(u)
    ensures var r := UpdateEntry(t, i, u);
      && (forall j :: 0 <= j < |t| && j != i ==> r.0[j] == t[j])
      && (t[i].kind != u.oldType ==> r == (t, 0))
      && (r.0[i].kind == u.oldType || r.0[i].kind == u.newType || r.0[i] == t[i])
      && (forall j :: |t| <= j < |r.0| ==> Inert(r.0[j], u))
      && (forall j :: |t| <= j < |r.0| ==> r.0[j].kind == u.oldType || r.0[j].kind == u.newType)
  {
  }

  /**
   * An entry the loop body leaves as it is: another type, or the old-type
   * tail that a split appends at `end`.
   */
  predicate Inert(e: Entry, u: Update)
  {
    e.kind != u.oldType || (e.addr == u.end && u.end < e.addr + e.size < U64_LIMIT)
  }

  lemma InertUnchanged(t: seq<Entry>, i: nat, u: Update)
    requires i < |t| <= E820_MAX_ENTRIES && ValidUpdate(u) && Inert(t[i], u)
    ensures UpdateEntry(t, i, u) == (t, 0)
  {}

  /** The loop from slot i on, with `real_updated_size` so far in acc. */
  function UpdateFrom(t: seq<Entry>, i: nat, u: Update, acc: u64): (r: (seq<Entry>, u64))
    requires i <= |t| <= E820_MAX_ENTRIES && ValidUpdate(u)
    ensures |t| <= |r.0| <= E820_MAX_ENTRIES
    decreases E820_MAX_ENTRIES - i
  {
    if i == |t| then (t, acc)
    else
      var (t', d) := UpdateEntry(t, i, u);
      UpdateFrom(t', i + 1, u, (acc + d) % U64_LIMIT)
  }

  /** One iteration of the loop: slot i updated, then the rest. */
  lemma UpdateFromStep(t: seq<Entry>, i: nat, u: Update, acc: u64)
    requires i < |t| <= E820_MAX_ENTRIES && ValidUpdate(u)
    ensures var r := UpdateEntry(t, i, u);
      UpdateFrom(t, i, u, acc) == UpdateFrom(r.0, i + 1, u, (acc + r.1) % U64_LIMIT)
  {
  }

  /** `__e820_range_update(table, start, size, old_type, new_type)`: the new table and the bytes retyped. */
  function RangeUpdate(t: seq<Entry>, start: u64, size: u64, oldType: u32, newType: u32): (seq<Entry>, u64)
    requires |t| <= E820_MAX_ENTRIES && oldType != newType
  {
    UpdateFrom(t, 0, MakeUpdate(start, size, oldType, newType), 0)
  }

  // ---------------------------------------------------------------------
  // The frame: what the update leaves alone.

  /**
   * r is what the loop makes of t from slot i on: slots below i unchanged,
   * other-type entries unchanged, every other slot and every appended one
   * of the old or the new type.
   */
  ghost predicate Framed(t: seq<Entry>, r: seq<Entry>, i: nat, u: Update)
  {
    |t| <= |r| &&
    (forall j :: 0 <= j < i && j < |t| ==> r[j] == t[j]) &&
    (forall j :: i <= j < |t| && t[j].kind != u.oldType ==> r[j] == t[j]) &&
    (forall j :: i <= j < |t| ==> r[j] == t[j] || r[j].kind == u.oldType || r[j].kind == u.newType) &&
    (forall j :: |t| <= j < |r| ==> r[j].kind == u.oldType || r[j].kind == u.newType)
  }

  lemma FramedStep(t: seq<Entry>, r: seq<Entry>, i: nat, u: Update)
    requires i < |t| <= E820_MAX_ENTRIES && ValidUpdate(u)
    requires Framed(UpdateEntry(t, i, u).0, r, i + 1, u)
    ensures Framed(t, r, i, u)
  {
    UpdateEntryFacts(t, i, u);
    var t' := UpdateEntry(t, i, u).0;
    assert r[i] == t'[i];
    forall j | |t| <= j < |r| ensures r[j].kind == u.oldType || r[j].kind == u.newType {
      if j < |t'| {
        assert r[j] == t'[j] || r[j].kind == u.oldType || r[j].kind == u.newType;
      }
    }
  }

  lemma {:induction false} UpdateFromFramed(t: seq<Entry>, i: nat, u: Update, acc: u64)
    requires i <= |t| <= E820_MAX_ENTRIES && ValidUpdate(u)
    ensures Framed(t, UpdateFrom(t, i, u, acc).0, i, u)
    decreases E820_MAX_ENTRIES - i
  {
    if i < |t| {
      var (t', d) := UpdateEntry(t, i, u);
      var acc' := (acc + d) % U64_LIMIT;
      UpdateFromStep(t, i, u, acc);
      UpdateFromFramed(t', i + 1, u, acc');
      var r := UpdateFrom(t', i + 1, u, acc').0;
      FramedStep(t, r, i, u);
      assert UpdateFrom(t, i, u, acc).0 == r;
    } else {
      assert UpdateFrom(t, i, u, acc).0 == t;
    }
  }

  /**
   * Entries of other types keep their slot and contents; every other slot
   * ends up with the old type or the new one.
   */
  lemma RangeUpdateFrame(t: seq<Entry>, start: u64, size: u64, oldType: u32, newType: u32)
    requires |t| <= E820_MAX_ENTRIES && oldType != newType
    ensures var r := RangeUpdate(t, start, size, oldType, newType).0;
      |t| <= |r| <= E820_MAX_ENTRIES &&
      (forall j :: 0 <= j < |t| && t[j].kind != oldType ==> r[j] == t[j]) &&
      (forall j :: 0 <= j < |r| && (j >= |t| || t[j].kind == oldType) ==> r[j].kind == oldType || r[j].kind == newType)
  {
    var u := MakeUpdate(start, size, oldType, newType);
    UpdateFromFramed(t, 0, u, 0);
  }

  // ---------------------------------------------------------------------
  // The return value: bytes of old-type entries that lie in [start, end).

  /** The length of the part of e that lies in [u.start, u.end), when e has the old type. */
  function Overlap(e: Entry, u: Update): nat
  {
    if e.kind != u.oldType then 0
    else
      var lo := Max(e.addr, u.start);
      var hi := Min(End(e), u.end);
      if lo < hi then hi - lo else 0
  }

  function SumOverlap(t: seq<Entry>, u: Update): nat
  {
    if |t| == 0 then 0 else SumOverlap(t[..|t| - 1], u) + Overlap(t[|t| - 1], u)
  }

  lemma EntryValue(t: seq<Entry>, i: nat, u: Update)
    requires i < |t| <= E820_MAX_ENTRIES && ValidUpdate(u) && !Wraps(t[i])
    ensures UpdateEntry(t, i, u).1 == Overlap(t[i], u)
  {}

  lemma {:induction false} SumOverlapAppend(t: seq<Entry>, e: Entry, u: Update)
    ensures SumOverlap(t + [e], u) == SumOverlap(t, u) + Overlap(e, u)
  {
    assert (t + [e])[..|t|] == t;
  }

  lemma ModAdd(a: nat, b: nat, m: nat)
    requires m > 0
    ensures (a % m + b) % m == (a + b) % m
  {
    DivModUnique(a + b, m, a / m + (a % m + b) / m, (a % m + b) % m);
  }

  /** The slots the loop has not reached still hold the original entries; slots past them are inert. */
  ghost predicate Shape(t0: seq<Entry>, t: seq<Entry>, i: nat, u: Update)
  {
    |t0| <= |t| <= E820_MAX_ENTRIES && i <= |t| &&
    (i <= |t0| ==> t[i..|t0|] == t0[i..]) &&
    (forall j :: |t0| <= j < |t| ==> Inert(t[j], u))
  }

  lemma ShapeStep(t0: seq<Entry>, t: seq<Entry>, i: nat, u: Update)
    requires ValidUpdate(u) && Shape(t0, t, i, u) && i < |t|
    ensures Shape(t0, UpdateEntry(t, i, u).0, i + 1, u)
    ensures i < |t0| ==> t[i] == t0[i]
    ensures i >= |t0| ==> UpdateEntry(t, i, u) == (t, 0)
  {
    var t' := UpdateEntry(t, i, u).0;
    if i >= |t0| {
      InertUnchanged(t, i, u);
    } else {
      assert t[i] == t0[i] by {
        assert t[i..|t0|][0] == t0[i..][0];
      }
      assert t'[i + 1..|t0|] == t0[i + 1..] by {
        assert forall j :: i + 1 <= j < |t0| ==> t'[j] == t[j] == t[i..|t0|][j - i];
      }
    }
  }

  /** What holds of the table and the running sum when the loop reaches slot i. */
  ghost predicate ValueProgress(t0: seq<Entry>, t: seq<Entry>, i: nat, u: Update, acc: u64)
  {
    Shape(t0, t, i, u) && acc == SumOverlap(t0[..Min(i, |t0|)], u) % U64_LIMIT
  }

  lemma ValueStep(t0: seq<Entry>, t: seq<Entry>, i: nat, u: Update, acc: u64)
    requires ValidUpdate(u) && NoWrap(t0) && ValueProgress(t0, t, i, u, acc) && i < |t|
    ensures var r := UpdateEntry(t, i, u);
      ValueProgress(t0, r.0, i + 1, u, (acc + r.1) % U64_LIMIT)
  {
    ShapeStep(t0, t, i, u);
    if i < |t0| {
      var d := UpdateEntry(t, i, u).1;
      EntryValue(t, i, u);
      assert t0[..i + 1] == t0[..i] + [t0[i]];
      SumOverlapAppend(t0[..i], t0[i], u);
      ModAdd(SumOverlap(t0[..i], u), d, U64_LIMIT);
    }
  }

  lemma {:induction false} UpdateFromValue(t0: seq<Entry>, t: seq<Entry>, i: nat, u: Update, acc: u64)
    requires ValidUpdate(u) && NoWrap(t0) && ValueProgress(t0, t, i, u, acc)
    ensures UpdateFrom(t, i, u, acc).1 == SumOverlap(t0, u) % U64_LIMIT
    decreases E820_MAX_ENTRIES - i
  {
    if i < |t| {
      var r := UpdateEntry(t, i, u);
      UpdateFromStep(t, i, u, acc);
      ValueStep(t0, t, i, u, acc);
      UpdateFromValue(t0, r.0, i + 1, u, (acc + r.1) % U64_LIMIT);
    } else {
      ValueDone(t0, t, i, u, acc);
    }
  }

  lemma ValueDone(t0: seq<Entry>, t: seq<Entry>, i: nat, u: Update, acc: u64)
    requires ValueProgress(t0, t, i, u, acc) && i == |t|
    ensures acc == SumOverlap(t0, u) % U64_LIMIT
  {
    assert Min(i, |t0|) == |t0|;
    assert t0[..|t0|] == t0;
  }

  /**
   * On a table whose entries do not wrap, the return value is the number of
   * bytes of old-type entries inside [start, end), modulo 2^64, whether or
   * not the table had room for the pieces the update appends.
   */
  lemma RangeUpdateValue(t: seq<Entry>, start: u64, size: u64, oldType: u32, newType: u32)
    requires |t| <= E820_MAX_ENTRIES && oldType != newType && NoWrap(t)
    ensures RangeUpdate(t, start, size, oldType, newType).1 ==
      SumOverlap(t, MakeUpdate(start, size, oldType, newType)) % U64_LIMIT
  {
    var u := MakeUpdate(start, size, oldType, newType);
    assert t[0..|t|] == t[0..];
    assert t[..0] == [];
    UpdateFromValue(t, t, 0, u, 0);
  }

  // ---------------------------------------------------------------------
  // Coverage: the address map after the update is the old one retyped.

  /** The set of types that entries of t give to address x. */
  function KindsAt(t: seq<Entry>, x: int): set<u32>
  {
    if |t| == 0 then {}
    else KindsAt(t[..|t| - 1], x) + (if Covers(t[|t| - 1], x) then {t[|t| - 1].kind} else {})
  }

  /** The type e gives to x once the update has retyped [start, end) from the old type to the new. */
  function RetypedKind(e: Entry, u: Update, x: int): u32
  {
    if e.kind == u.oldType && u.start <= x < u.end then u.newType else e.kind
  }

  function RetypedKinds(t: seq<Entry>, u: Update, x: int): set<u32>
  {
    if |t| == 0 then {}
    else RetypedKinds(t[..|t| - 1], u, x) + (if Covers(t[|t| - 1], x) then {RetypedKind(t[|t| - 1], u, x)} else {})
  }

  lemma {:induction false} KindsAtConcat(a: seq<Entry>, b: seq<Entry>, x: int)
    ensures KindsAt(a + b, x) == KindsAt(a, x) + KindsAt(b, x)
  {
    if |b| > 0 {
      assert (a + b)[..|a + b| - 1] == a + b[..|b| - 1];
      KindsAtConcat(a, b[..|b| - 1], x);
    } else {
      assert a + b == a;
    }
  }

  lemma {:induction false} RetypedKindsConcat(a: seq<Entry>, b: seq<Entry>, u: Update, x: int)
    ensures RetypedKinds(a + b, u, x) == RetypedKinds(a, u, x) + RetypedKinds(b, u, x)
  {
    if |b| > 0 {
      assert (a + b)[..|a + b| - 1] == a + b[..|b| - 1];
      RetypedKindsConcat(a, b[..|b| - 1], u, x);
    } else {
      assert a + b == a;
    }
  }

  function One(e: Entry, x: int): set<u32>
  {
    if Covers(e, x) then {e.kind} else {}
  }

  lemma KindsAtOne(e: Entry, x: int)
    ensures KindsAt([e], x) == One(e, x)
  {
    assert [e][..0] == [];
  }

  lemma RetypedKindsOne(e: Entry, u: Update, x: int)
    ensures RetypedKinds([e], u, x) == if Covers(e, x) then {RetypedKind(e, u, x)} else {}
  {
    assert [e][..0] == [];
  }

  /** The pieces a split leaves give every address of the entry its retyped type, and no other address a type. */
  lemma SplitPieces(e: Entry, u: Update, x: int)
    requires ValidUpdate(u) && !Wraps(e) && e.kind == u.oldType && e.addr < u.start && End(e) > u.end
    ensures One(e.(size := u.start - e.addr), x) + One(Entry(u.start, u.size, u.newType), x)
      + One(Entry(u.end, End(e) - u.end, e.kind), x) == (if Covers(e, x) then {RetypedKind(e, u, x)} else {})
  {}

  lemma HeadPieces(e: Entry, u: Update, x: int, fs: int, fe: int)
    requires ValidUpdate(u) && !Wraps(e) && e.kind == u.oldType
    requires fs == u.start && e.addr < u.start && fe == End(e) <= u.end && fs < fe
    ensures One(e.(size := e.size - (fe - fs)), x) + One(Entry(fs, fe - fs, u.newType), x)
      == (if Covers(e, x) then {RetypedKind(e, u, x)} else {})
  {}

  lemma TailPieces(e: Entry, u: Update, x: int, fs: int, fe: int)
    requires ValidUpdate(u) && !Wraps(e) && e.kind == u.oldType
    requires fs == e.addr >= u.start && fe == u.end < End(e) && fs < fe
    ensures One(e.(size := e.size - (fe - fs), addr := fe), x) + One(Entry(fs, fe - fs, u.newType), x)
      == (if Covers(e, x) then {RetypedKind(e, u, x)} else {})
  {}

  /**
   * The entry the loop body leaves in slot i together with what it appends
   * give each address the type the old entry had, retyped; provided nothing
   * was dropped for want of room.
   */
  lemma EntryCoverage(t: seq<Entry>, i: nat, u: Update, x: int)
    requires i < |t| <= E820_MAX_ENTRIES && ValidUpdate(u) && !Wraps(t[i])
    requires |UpdateEntry(t, i, u).0| < E820_MAX_ENTRIES
    ensures var r := UpdateEntry(t, i, u).0;
      One(r[i], x) + KindsAt(r[|t|..], x) == RetypedKinds([t[i]], u, x)
  {
    var r := UpdateEntry(t, i, u).0;
    var e := t[i];
    RetypedKindsOne(e, u, x);
    if e.kind != u.oldType || (e.addr >= u.start && e.addr + e.size <= u.end) {
      assert r[|t|..] == [];
    } else if e.addr < u.start && e.addr + e.size > u.end {
      SplitCoverage(t, i, u, x);
    } else {
      PartialCoverage(t, i, u, x);
    }
  }

  lemma SplitCoverage(t: seq<Entry>, i: nat, u: Update, x: int)
    requires i < |t| <= E820_MAX_ENTRIES && ValidUpdate(u) && !Wraps(t[i])
    requires |UpdateEntry(t, i, u).0| < E820_MAX_ENTRIES
    requires t[i].kind == u.oldType && t[i].addr < u.start && End(t[i]) > u.end
    ensures var r := UpdateEntry(t, i, u).0;
      One(r[i], x) + KindsAt(r[|t|..], x) == if Covers(t[i], x) then {RetypedKind(t[i], u, x)} else {}
  {
    var e := t[i];
    var r := UpdateEntry(t, i, u).0;
    var tail := [Entry(u.start, u.size, u.newType), Entry(u.end, End(e) - u.end, e.kind)];
    assert r == (t + tail)[i := e.(size := u.start - e.addr)];
    assert r[|t|..] == tail;
    assert tail == [tail[0]] + [tail[1]];
    KindsAtConcat([tail[0]], [tail[1]], x);
    KindsAtOne(tail[0], x);
    KindsAtOne(tail[1], x);
    SplitPieces(e, u, x);
  }

  lemma PartialCoverage(t: seq<Entry>, i: nat, u: Update, x: int)
    requires i < |t| <= E820_MAX_ENTRIES && ValidUpdate(u) && !Wraps(t[i])
    requires |UpdateEntry(t, i, u).0| < E820_MAX_ENTRIES
    requires t[i].kind == u.oldType && !(t[i].addr >= u.start && End(t[i]) <= u.end)
    requires !(t[i].addr < u.start && End(t[i]) > u.end)
    ensures var r := UpdateEntry(t, i, u).0;
      One(r[i], x) + KindsAt(r[|t|..], x) == if Covers(t[i], x) then {RetypedKind(t[i], u, x)} else {}
  {
    var e := t[i];
    var r := UpdateEntry(t, i, u).0;
    var fs := Max(u.start, e.addr);
    var fe := Min(u.end, End(e));
    if fs >= fe {
      assert r == t;
      assert r[|t|..] == [];
    } else {
      var piece := Entry(fs, fe - fs, u.newType);
      assert r[|t|..] == [piece];
      KindsAtOne(piece, x);
      if e.addr < fs {
        assert r[i] == e.(size := e.size - (fe - fs));
        HeadPieces(e, u, x, fs, fe);
      } else {
        assert r[i] == e.(size := e.size - (fe - fs), addr := fe);
        TailPieces(e, u, x, fs, fe);
      }
    }
  }

  /** What holds of the table when the loop reaches slot i, for the original table t0. */
  ghost predicate Progress(t0: seq<Entry>, t: seq<Entry>, i: nat, u: Update)
  {
    Shape(t0, t, i, u) &&
    (|t| < E820_MAX_ENTRIES ==> forall x: int ::
      KindsAt(t[..Min(i, |t0|)], x) + KindsAt(t[|t0|..], x) == RetypedKinds(t0[..Min(i, |t0|)], u, x))
  }

  lemma ProgressStart(t0: seq<Entry>, u: Update)
    requires |t0| <= E820_MAX_ENTRIES
    ensures Progress(t0, t0, 0, u)
  {
    assert t0[0..|t0|] == t0[0..];
    assert t0[|t0|..] == [];
  }

  lemma ProgressStep(t0: seq<Entry>, t: seq<Entry>, i: nat, u: Update)
    requires ValidUpdate(u) && NoWrap(t0) && Progress(t0, t, i, u) && i < |t|
    ensures Progress(t0, UpdateEntry(t, i, u).0, i + 1, u)
  {
    ShapeStep(t0, t, i, u);
    var t' := UpdateEntry(t, i, u).0;
    if i < |t0| && |t'| < E820_MAX_ENTRIES {
      assert t'[|t0|..] == t[|t0|..] + t'[|t|..];
      assert t'[..i + 1] == t[..i] + [t'[i]];
      assert t0[..i + 1] == t0[..i] + [t0[i]];
      forall x: int
        ensures KindsAt(t'[..i + 1], x) + KindsAt(t'[|t0|..], x) == RetypedKinds(t0[..i + 1], u, x)
      {
        KindsAtConcat(t[..i], [t'[i]], x);
        KindsAtOne(t'[i], x);
        KindsAtConcat(t[|t0|..], t'[|t|..], x);
        RetypedKindsConcat(t0[..i], [t0[i]], u, x);
        EntryCoverage(t, i, u, x);
      }
    }
  }

  /** Every address gets from t the types t0 gives it, retyped. */
  ghost predicate RetypedCover(t: seq<Entry>, t0: seq<Entry>, u: Update)
  {
    forall x: int :: KindsAt(t, x) == RetypedKinds(t0, u, x)
  }

  lemma {:induction false} UpdateFromCoverage(t0: seq<Entry>, t: seq<Entry>, i: nat, u: Update, acc: u64)
    requires ValidUpdate(u) && NoWrap(t0) && Progress(t0, t, i, u)
    ensures |UpdateFrom(t, i, u, acc).0| < E820_MAX_ENTRIES ==> RetypedCover(UpdateFrom(t, i, u, acc).0, t0, u)
    decreases E820_MAX_ENTRIES - i
  {
    if i < |t| {
      var r := UpdateEntry(t, i, u);
      UpdateFromStep(t, i, u, acc);
      ProgressStep(t0, t, i, u);
      UpdateFromCoverage(t0, r.0, i + 1, u, (acc + r.1) % U64_LIMIT);
    } else if |t| < E820_MAX_ENTRIES {
      CoverageDone(t0, t, i, u);
    }
  }

  lemma CoverageDone(t0: seq<Entry>, t: seq<Entry>, i: nat, u: Update)
    requires Progress(t0, t, i, u) && i == |t| < E820_MAX_ENTRIES
    ensures RetypedCover(t, t0, u)
  {
    assert Min(i, |t0|) == |t0|;
    assert t0[..|t0|] == t0;
    assert t == t[..|t0|] + t[|t0|..];
    forall x: int
      ensures KindsAt(t, x) == RetypedKinds(t0, u, x)
    {
      KindsAtConcat(t[..|t0|], t[|t0|..], x);
    }
  }

  /**
   * When nothing wraps and the table does not fill up, every address is
   * given after the update exactly the set of types the old entries gave
   * it, with the old type replaced by the new one inside [start, end).
   */
  lemma RangeUpdateCoverage(t: seq<Entry>, start: u64, size: u64, oldType: u32, newType: u32, x: int)
    requires |t| <= E820_MAX_ENTRIES && oldType != newType && NoWrap(t)
    requires |RangeUpdate(t, start, size, oldType, newType).0| < E820_MAX_ENTRIES
    ensures KindsAt(RangeUpdate(t, start, size, oldType, newType).0, x) ==
      RetypedKinds(t, MakeUpdate(start, size, oldType, newType), x)
  {
    var u := MakeUpdate(start, size, oldType, newType);
    ProgressStart(t, u);
    UpdateFromCoverage(t, t, 0, u, 0);
  }
}
