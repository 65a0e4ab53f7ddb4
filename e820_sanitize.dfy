/**
 * The sanitizing sweep of `__e820_update_table` (kernel/e820.c): change
 * points, their `cpcompare` order, the overlap list and the sweep that
 * emits a disjoint map, as functions on sequences. The imperative method in
 * module E820 is proved equal to `SweepPoints`; the lemmas here say what
 * the sweep computes.
 */
module E820Sanitize {
  import opened Machine
  import opened E820Map

  /** A change point: the address where entry number `entry` starts or ends. */
  datatype ChangeMember = ChangeMember(entry: nat, addr: u64)

  function StartPoint(t: seq<Entry>, i: nat): ChangeMember
    requires i < |t|
  {
    ChangeMember(i, t[i].addr)
  }

  function EndPoint(t: seq<Entry>, i: nat): ChangeMember
    requires i < |t| && !Wraps(t[i])
  {
    ChangeMember(i, t[i].addr + t[i].size)
  }

  /** The point is the end of its region: cpcompare's `ap->addr != ap->entry->addr`. */
  predicate IsEnd(t: seq<Entry>, c: ChangeMember)
  {
    c.entry < |t| && c.addr != t[c.entry].addr
  }

  /** The order sort() establishes: by address, and at one address starts before ends. */
  function Rank(t: seq<Entry>, c: ChangeMember): int
  {
    2 * c.addr + (if IsEnd(t, c) then 1 else 0)
  }

  /** cpcompare: the sign of the address difference, else end-of-region counts as greater. */
  function CpCompare(t: seq<Entry>, a: ChangeMember, b: ChangeMember): (r: int)
    ensures r == -1 || r == 0 || r == 1
    ensures r < 0 <==> a.addr < b.addr || (a.addr == b.addr && !IsEnd(t, a) && IsEnd(t, b))
    ensures r == 0 <==> a.addr == b.addr && IsEnd(t, a) == IsEnd(t, b)
    ensures r < 0 <==> Rank(t, a) < Rank(t, b)
    ensures r == 0 <==> Rank(t, a) == Rank(t, b)
  {
    if a.addr != b.addr then (if a.addr > b.addr then 1 else -1)
    else (if IsEnd(t, a) then 1 else 0) - (if IsEnd(t, b) then 1 else 0)
  }

  /** Sorted by cpcompare; by CpCompare's contract this is the order of Rank. */
  predicate CpSorted(t: seq<Entry>, s: seq<ChangeMember>)
  {
    forall i, j :: 0 <= i < j < |s| ==> Rank(t, s[i]) <= Rank(t, s[j])
  }

  /** The change points of the first n entries, two per non-empty entry, in entry order. */
  function ChangePoints(t: seq<Entry>, n: nat): (r: seq<ChangeMember>)
    requires n <= |t| && NoWrap(t)
  {
    if n == 0 then []
    else
      var tail := if t[n - 1].size != 0 then [StartPoint(t, n - 1), EndPoint(t, n - 1)] else [];
      ChangePoints(t, n - 1) + tail
  }

  predicate Distinct<T(==)>(s: seq<T>)
  {
    forall i, j :: 0 <= i < j < |s| ==> s[i] != s[j]
  }

  lemma {:induction false} ChangePointsMembers(t: seq<Entry>, n: nat)
    requires n <= |t| && NoWrap(t)
    ensures Distinct(ChangePoints(t, n))
    ensures forall c :: c in ChangePoints(t, n) <==>
      c.entry < n && t[c.entry].size != 0 && (c.addr == t[c.entry].addr || c.addr == End(t[c.entry]))
  {
    if n > 0 {
      ChangePointsMembers(t, n - 1);
      var p := ChangePoints(t, n - 1);
      var q := if t[n - 1].size != 0 then [StartPoint(t, n - 1), EndPoint(t, n - 1)] else [];
      assert ChangePoints(t, n) == p + q;
      forall i, j | 0 <= i < j < |p + q| ensures (p + q)[i] != (p + q)[j] {
        if j >= |p| && i < |p| {
          assert (p + q)[i] in p;
        }
      }
    }
  }

  /** Sorting: insertion into a sorted sequence. sort() itself is not part of this model; it is specified by SortChangePoints's contract. */
  function Insert(t: seq<Entry>, c: ChangeMember, s: seq<ChangeMember>): (r: seq<ChangeMember>)
    requires CpSorted(t, s)
    ensures multiset(r) == multiset(s) + multiset{c}
    ensures CpSorted(t, r)
    ensures |r| == |s| + 1 && (r[0] == c || (|s| > 0 && r[0] == s[0]))
  {
    if |s| == 0 then [c]
    else if Rank(t, c) <= Rank(t, s[0]) then
      [c] + s
    else
      assert s == [s[0]] + s[1..];
      var rest := Insert(t, c, s[1..]);
      SortedCons(t, s[0], rest);
      [s[0]] + rest
  }

  lemma SortedCons(t: seq<Entry>, x: ChangeMember, rest: seq<ChangeMember>)
    requires CpSorted(t, rest) && (|rest| > 0 ==> Rank(t, x) <= Rank(t, rest[0]))
    ensures CpSorted(t, [x] + rest)
  {
    forall i, j | 0 <= i < j < |[x] + rest| ensures Rank(t, ([x] + rest)[i]) <= Rank(t, ([x] + rest)[j]) {
      if i > 0 {
        assert ([x] + rest)[i] == rest[i - 1];
      }
      assert ([x] + rest)[j] == rest[j - 1];
    }
  }

  /** A sorted permutation, the contract the source asks of sort() with cpcompare. */
  function SortChangePoints(t: seq<Entry>, s: seq<ChangeMember>): (r: seq<ChangeMember>)
    ensures multiset(r) == multiset(s)
    ensures CpSorted(t, r)
  {
    if |s| == 0 then []
    else
      assert s == [s[0]] + s[1..];
      Insert(t, s[0], SortChangePoints(t, s[1..]))
  }

  /** The largest type among the overlap list's entries, as the loop over overlap_list computes it. */
  function OverlapType(t: seq<Entry>, ov: seq<nat>): (r: u32)
    ensures forall j :: 0 <= j < |ov| && ov[j] < |t| ==> t[ov[j]].kind <= r
    ensures r == 0 || exists j :: 0 <= j < |ov| && ov[j] < |t| && t[ov[j]].kind == r
  {
    if |ov| == 0 then 0
    else
      var m := OverlapType(t, ov[..|ov| - 1]);
      var e := ov[|ov| - 1];
      if e < |t| && t[e].kind > m then t[e].kind else m
  }

  /** The removal loop from position i on: a slot holding e is overwritten with the last slot. */
  function SwapScan(ov: seq<nat>, e: nat, i: nat): (r: seq<nat>)
    requires i <= |ov|
    ensures |r| == |ov|
    decreases |ov| - i
  {
    if i == |ov| then ov
    else SwapScan(if ov[i] == e then ov[i := ov[|ov| - 1]] else ov, e, i + 1)
  }

  /** Removing an ended entry from the overlap list: scan, then drop the last slot. */
  function RemoveOverlap(ov: seq<nat>, e: nat): seq<nat>
  {
    if |ov| == 0 then ov else SwapScan(ov, e, 0)[..|ov| - 1]
  }

  lemma {:induction false} SwapScanNoMatch(ov: seq<nat>, e: nat, i: nat)
    requires i <= |ov|
    requires forall j :: i <= j < |ov| ==> ov[j] != e
    ensures SwapScan(ov, e, i) == ov
    decreases |ov| - i
  {
    if i < |ov| {
      SwapScanNoMatch(ov, e, i + 1);
    }
  }

  lemma {:induction false} SwapScanSkip(ov: seq<nat>, e: nat, i: nat, p: nat)
    requires i <= p < |ov|
    requires forall j :: i <= j < p ==> ov[j] != e
    ensures SwapScan(ov, e, i) == SwapScan(ov, e, p)
    decreases p - i
  {
    if i < p {
      SwapScanSkip(ov, e, i + 1, p);
    }
  }

  lemma RemoveOverlapDistinct(ov: seq<nat>, e: nat)
    requires Distinct(ov) && e in ov
    ensures |RemoveOverlap(ov, e)| == |ov| - 1
    ensures Distinct(RemoveOverlap(ov, e))
    ensures forall x :: x in RemoveOverlap(ov, e) <==> x in ov && x != e
  {
    var n := |ov|;
    var p :| 0 <= p < n && ov[p] == e;
    SwapScanSkip(ov, e, 0, p);
    var ov1 := ov[p := ov[n - 1]];
    assert SwapScan(ov, e, p) == SwapScan(ov1, e, p + 1);
    SwapScanNoMatch(ov1, e, p + 1);
    var r := ov1[..n - 1];
    assert RemoveOverlap(ov, e) == r;
    forall x ensures x in r <==> x in ov && x != e {
      if x in r {
        var k :| 0 <= k < n - 1 && r[k] == x;
        if k == p { assert x == ov[n - 1]; } else { assert x == ov[k]; }
      }
      if x in ov && x != e {
        var k :| 0 <= k < n && ov[k] == x;
        if k == n - 1 { assert r[p] == x; } else { assert r[k] == x; }
      }
    }
  }

  /** The sweep's state: overlap list, emitted entries, the open entry (last_type/last_addr), and whether the 128-entry cap stopped it. */
  datatype Sweep = Sweep(overlap: seq<nat>, out: seq<Entry>, lastType: u32, lastAddr: u64, full: bool)

  /** The overlap list after point c: a start appends its entry, an end removes it. */
  function NextOverlap(t: seq<Entry>, ov: seq<nat>, c: ChangeMember): seq<nat>
  {
    if c.entry < |t| && c.addr == t[c.entry].addr then ov + [c.entry]
    else RemoveOverlap(ov, c.entry)
  }

  /** One iteration of the sweep loop for change point c. */
  function SweepStep(t: seq<Entry>, st: Sweep, c: ChangeMember): Sweep
  {
    var ov := NextOverlap(t, st.overlap, c);
    var cur := OverlapType(t, ov);
    if cur == st.lastType then st.(overlap := ov)
    else if Closes(st, c.addr) && |st.out| + 1 >= E820_MAX_ENTRIES then
      Sweep(ov, CloseOut(st, c.addr), st.lastType, st.lastAddr, true)
    else
      Sweep(ov, CloseOut(st, c.addr), cur, if cur != 0 then c.addr else st.lastAddr, false)
  }

  /** The second half of a step: what the new highest type cur at addr does to the emitted map. */
  function Emit(st: Sweep, cur: u32, addr: u64): Sweep
  {
    if cur == st.lastType then st
    else if Closes(st, addr) && |st.out| + 1 >= E820_MAX_ENTRIES then
      st.(out := CloseOut(st, addr), full := true)
    else
      st.(out := CloseOut(st, addr), lastType := cur, lastAddr := if cur != 0 then addr else st.lastAddr)
  }

  lemma SweepStepIsEmit(t: seq<Entry>, st: Sweep, c: ChangeMember)
    requires !st.full
    ensures var ov := NextOverlap(t, st.overlap, c);
      SweepStep(t, st, c) == Emit(st.(overlap := ov), OverlapType(t, ov), c.addr)
  {
  }

  /** The open entry is emitted at addr: it has a type and a non-zero size. */
  predicate Closes(st: Sweep, addr: u64)
  {
    st.lastType != 0 && (addr - st.lastAddr) % U64_LIMIT != 0
  }

  /** The emitted entries after closing the open entry at addr. */
  function CloseOut(st: Sweep, addr: u64): seq<Entry>
  {
    if Closes(st, addr) then st.out + [Entry(st.lastAddr, (addr - st.lastAddr) % U64_LIMIT, st.lastType)]
    else st.out
  }

  /** The sweep over a prefix of the sorted change points; the loop stops at the cap. */
  function SweepPoints(t: seq<Entry>, s: seq<ChangeMember>): Sweep
  {
    if |s| == 0 then Sweep([], [], 0, 0, false)
    else
      var st := SweepPoints(t, s[..|s| - 1]);
      if st.full then st else SweepStep(t, st, s[|s| - 1])
  }

  /** The entries `__e820_update_table` writes back. */
  function SanitizedEntries(t: seq<Entry>): (r: seq<Entry>)
    requires NoWrap(t)
    ensures |r| <= E820_MAX_ENTRIES
  {
    var s := SortChangePoints(t, ChangePoints(t, |t|));
    SweepCorrect(t, s);
    SweepPoints(t, s).out
  }

  // ---------------------------------------------------------------------
  // Correctness of the sweep for any sorted permutation of the change points.

  ghost predicate SortedPoints(t: seq<Entry>, s: seq<ChangeMember>)
  {
    NoWrap(t) && multiset(s) == multiset(ChangePoints(t, |t|)) && CpSorted(t, s)
  }

  /** Entry i has started and not ended among the processed points p. */
  predicate IsOpen(t: seq<Entry>, p: seq<ChangeMember>, i: nat)
  {
    i < |t| && t[i].size != 0 && !Wraps(t[i]) && StartPoint(t, i) in p && EndPoint(t, i) !in p
  }

  lemma DistinctPermutation<T>(a: seq<T>, b: seq<T>)
    requires Distinct(a) && multiset(a) == multiset(b)
    ensures Distinct(b)
  {
    forall i, j | 0 <= i < j < |b| ensures b[i] != b[j] {
      if b[i] == b[j] {
        assert b == b[..i] + [b[i]] + b[i + 1..j] + [b[j]] + b[j + 1..];
        assert multiset(b)[b[i]] >= 2;
        DistinctCount(a, b[i]);
      }
    }
  }

  lemma {:induction false} DistinctCount<T>(a: seq<T>, x: T)
    requires Distinct(a)
    ensures multiset(a)[x] <= 1
  {
    if |a| > 0 {
      assert a == [a[0]] + a[1..];
      assert Distinct(a[1..]);
      DistinctCount(a[1..], x);
      if a[0] == x {
        assert x !in a[1..];
      }
    }
  }

  lemma SortedPointsFacts(t: seq<Entry>, s: seq<ChangeMember>)
    requires SortedPoints(t, s)
    ensures Distinct(s)
    ensures forall c :: c in s <==>
      c.entry < |t| && t[c.entry].size != 0 && (c.addr == t[c.entry].addr || c.addr == End(t[c.entry]))
    ensures forall i, j :: 0 <= i < j < |s| ==> s[i].addr <= s[j].addr
  {
    ChangePointsMembers(t, |t|);
    DistinctPermutation(ChangePoints(t, |t|), s);
    forall c ensures c in s <==> c in ChangePoints(t, |t|) {
      assert c in s <==> c in multiset(s);
    }
  }

  /** The index of a point within s. */
  lemma IndexOf(s: seq<ChangeMember>, c: ChangeMember) returns (a: nat)
    requires c in s
    ensures a < |s| && s[a] == c
  {
    a :| 0 <= a < |s| && s[a] == c;
  }

  /** In a sequence without repetitions, s[a] is among the first k elements exactly when a < k. */
  lemma PrefixMember<T>(s: seq<T>, k: nat, a: nat)
    requires Distinct(s) && k <= |s| && a < |s|
    ensures s[a] in s[..k] <==> a < k
  {
    if a < k {
      assert s[..k][a] == s[a];
    } else {
      assert forall j :: 0 <= j < k ==> s[..k][j] != s[a];
    }
  }

  /** With addresses non-decreasing and x between points k-1 and k, point a is before k iff it is at or below x. */
  lemma AddrBetween(s: seq<ChangeMember>, k: nat, a: nat, x: int)
    requires forall i, j :: 0 <= i < j < |s| ==> s[i].addr <= s[j].addr
    requires k <= |s| && a < |s|
    requires k == 0 || s[k - 1].addr <= x
    requires k == |s| || x < s[k].addr
    ensures a < k <==> s[a].addr <= x
  {
    if a < k {
      assert s[a].addr <= s[k - 1].addr;
    } else {
      assert s[k].addr <= s[a].addr;
    }
  }

  /** Between points k-1 and k, the open entries are exactly the entries covering x. */
  lemma OpenCovering(t: seq<Entry>, s: seq<ChangeMember>, k: nat, x: int, i: nat)
    requires SortedPoints(t, s) && k <= |s| && i < |t|
    requires k == 0 || s[k - 1].addr <= x
    requires k == |s| || x < s[k].addr
    ensures IsOpen(t, s[..k], i) <==> Covers(t[i], x)
  {
    SortedPointsFacts(t, s);
    if t[i].size != 0 {
      var a := IndexOf(s, StartPoint(t, i));
      var b := IndexOf(s, EndPoint(t, i));
      PrefixMember(s, k, a);
      PrefixMember(s, k, b);
      AddrBetween(s, k, a, x);
      AddrBetween(s, k, b, x);
    }
  }

  /** What the k-th point is: a start whose end is still to come, or an end whose start is processed. */
  lemma PointKind(t: seq<Entry>, s: seq<ChangeMember>, k: nat)
    requires SortedPoints(t, s) && k < |s|
    ensures s[k].entry < |t| && t[s[k].entry].size != 0 && !Wraps(t[s[k].entry])
    ensures !IsEnd(t, s[k]) ==> (s[k] == StartPoint(t, s[k].entry) &&
      StartPoint(t, s[k].entry) !in s[..k] && EndPoint(t, s[k].entry) !in s[..k + 1])
    ensures IsEnd(t, s[k]) ==> (s[k] == EndPoint(t, s[k].entry) &&
      StartPoint(t, s[k].entry) in s[..k] && EndPoint(t, s[k].entry) !in s[..k])
  {
    SortedPointsFacts(t, s);
    var i := s[k].entry;
    assert s[k] in s;
    var a := IndexOf(s, StartPoint(t, i));
    var b := IndexOf(s, EndPoint(t, i));
    assert Rank(t, s[a]) < Rank(t, s[b]);
    PrefixMember(s, k, a);
    PrefixMember(s, k, b);
    PrefixMember(s, k + 1, b);
  }

  /** The overlap list is the open set and the last type its maximum. */
  lemma OverlapIsTypeAt(t: seq<Entry>, ov: seq<nat>, x: int)
    requires forall j :: 0 <= j < |ov| ==> ov[j] < |t|
    requires forall i :: 0 <= i < |t| ==> (i in ov <==> Covers(t[i], x))
    ensures OverlapType(t, ov) == TypeAt(t, x)
  {
    var m := OverlapType(t, ov);
    var n := TypeAt(t, x);
    if m != 0 {
      var j :| 0 <= j < |ov| && ov[j] < |t| && t[ov[j]].kind == m;
      assert ov[j] in ov;
    }
    if n != 0 {
      var i :| 0 <= i < |t| && Covers(t[i], x) && t[i].kind == n;
      var j :| 0 <= j < |ov| && ov[j] == i;
    }
  }

  function Frontier(s: seq<ChangeMember>, k: nat): int
    requires k <= |s|
  {
    if k == 0 then 0 else s[k - 1].addr
  }

  /** End of the emitted part: the open entry's start, or the frontier when no entry is open. */
  function Bound(st: Sweep, f: int): int
  {
    if st.lastType != 0 then st.lastAddr else f
  }

  /** Below the frontier, emitted entries plus the open entry describe TypeAt exactly. */
  ghost predicate Agrees(t: seq<Entry>, st: Sweep, x: int)
  {
    if st.lastType != 0 && st.lastAddr <= x then TypeAt(t, x) == st.lastType && CoverType(st.out, x) == 0
    else CoverType(st.out, x) == TypeAt(t, x)
  }

  ghost predicate OutShape(out: seq<Entry>, b: int)
  {
    Sanitized(out) && forall j :: 0 <= j < |out| ==> End(out[j]) <= b
  }

  ghost predicate OpenList(t: seq<Entry>, p: seq<ChangeMember>, ov: seq<nat>)
  {
    Distinct(ov) && (forall j :: 0 <= j < |ov| ==> ov[j] < |t|) &&
    forall i :: 0 <= i < |t| ==> (i in ov <==> IsOpen(t, p, i))
  }

  /** The loop invariant of the sweep while it runs. */
  ghost predicate SweepInv(t: seq<Entry>, s: seq<ChangeMember>, k: nat, st: Sweep)
    requires k <= |s|
  {
    && !st.full
    && OpenList(t, s[..k], st.overlap)
    && st.lastType == OverlapType(t, st.overlap)
    && (st.lastType != 0 ==> st.lastAddr <= Frontier(s, k))
    && OutShape(st.out, Bound(st, Frontier(s, k)))
    && |st.out| < E820_MAX_ENTRIES
    && forall x :: x < Frontier(s, k) ==> Agrees(t, st, x)
  }

  /** What holds once the cap stopped the sweep. */
  ghost predicate FullInv(t: seq<Entry>, st: Sweep)
  {
    st.full && Sanitized(st.out) && |st.out| == E820_MAX_ENTRIES &&
    forall x :: CoverType(st.out, x) != 0 ==> CoverType(st.out, x) == TypeAt(t, x)
  }

  lemma OverlapStep(t: seq<Entry>, s: seq<ChangeMember>, k: nat, ov: seq<nat>) returns (ov': seq<nat>)
    requires SortedPoints(t, s) && k < |s|
    requires OpenList(t, s[..k], ov)
    ensures ov' == NextOverlap(t, ov, s[k])
    ensures OpenList(t, s[..k + 1], ov')
    ensures |ov'| <= |t|
    ensures s[k].entry < |t|
    ensures s[k].addr != t[s[k].entry].addr ==> s[k].entry in ov
  {
    PointKind(t, s, k);
    var c := s[k];
    var e := c.entry;
    assert s[..k + 1] == s[..k] + [c];
    if c.addr == t[e].addr {
      ov' := ov + [e];
      assert e !in ov;
      forall i | 0 <= i < |t| ensures i in ov' <==> IsOpen(t, s[..k + 1], i) {
        if i != e {
          assert StartPoint(t, i) != c;
          if !Wraps(t[i]) { assert EndPoint(t, i) != c; }
        }
      }
    } else {
      assert IsOpen(t, s[..k], e);
      RemoveOverlapDistinct(ov, e);
      ov' := RemoveOverlap(ov, e);
      forall i | 0 <= i < |t| ensures i in ov' <==> IsOpen(t, s[..k + 1], i) {
        if i != e {
          assert StartPoint(t, i) != c;
          if !Wraps(t[i]) { assert EndPoint(t, i) != c; }
        }
      }
      forall j | 0 <= j < |ov'| ensures ov'[j] < |t| {
        assert ov'[j] in ov';
      }
    }
    DistinctBound(ov', |t|);
  }

  /** The set {0, ..., n-1}. */
  function Range(n: nat): (r: set<nat>)
    ensures |r| == n
    ensures forall x :: x in r <==> 0 <= x < n
  {
    if n == 0 then {}
    else
      var p := Range(n - 1);
      assert n - 1 !in p;
      p + {n - 1}
  }

  /** The set of a sequence's elements; as large as the sequence when it has no repetitions. */
  function Elements(ov: seq<nat>): (r: set<nat>)
    ensures forall x :: x in r <==> x in ov
    ensures Distinct(ov) ==> |r| == |ov|
  {
    if |ov| == 0 then {}
    else
      var init := ov[..|ov| - 1];
      assert ov == init + [ov[|ov| - 1]];
      assert Distinct(ov) ==> Distinct(init) && ov[|ov| - 1] !in init;
      Elements(init) + {ov[|ov| - 1]}
  }

  lemma SubsetCard(a: set<nat>, b: set<nat>)
    requires a <= b
    ensures |a| <= |b|
  {
    assert b == a + (b - a);
  }

  /** A list without repetitions of numbers below n has at most n elements. */
  lemma DistinctBound(ov: seq<nat>, n: nat)
    requires Distinct(ov) && forall j :: 0 <= j < |ov| ==> ov[j] < n
    ensures |ov| <= n
  {
    assert Elements(ov) <= Range(n);
    SubsetCard(Elements(ov), Range(n));
  }

  /** Between the frontier and the next point, TypeAt is the open type and nothing is emitted. */
  lemma ExtendAgrees(t: seq<Entry>, s: seq<ChangeMember>, k: nat, st: Sweep)
    requires SortedPoints(t, s) && k < |s| && SweepInv(t, s, k, st)
    ensures Frontier(s, k) <= s[k].addr
    ensures forall x: int :: x < s[k].addr ==> Agrees(t, st, x)
  {
    SortedPointsFacts(t, s);
    var f := Frontier(s, k);
    assert k > 0 ==> s[k - 1].addr <= s[k].addr;
    forall x: int | f <= x < s[k].addr ensures Agrees(t, st, x) {
      forall i | 0 <= i < |t| ensures i in st.overlap <==> Covers(t[i], x) {
        OpenCovering(t, s, k, x, i);
      }
      OverlapIsTypeAt(t, st.overlap, x);
      CoverTypeBeyond(st.out, Bound(st, f), x);
    }
  }

  /** Closing the open entry at q keeps the emitted map sanitized and exact below q. */
  lemma CloseAgrees(t: seq<Entry>, st: Sweep, f: int, q: u64)
    requires st.lastType != 0 ==> st.lastAddr <= f
    requires f <= q
    requires OutShape(st.out, Bound(st, f))
    requires forall x: int :: x < q ==> Agrees(t, st, x)
    ensures OutShape(CloseOut(st, q), q)
    ensures forall x: int :: x < q ==> CoverType(CloseOut(st, q), x) == TypeAt(t, x)
    ensures |CloseOut(st, q)| == if Closes(st, q) then |st.out| + 1 else |st.out|
  {
    if Closes(st, q) {
      var e := Entry(st.lastAddr, (q - st.lastAddr) % U64_LIMIT, st.lastType);
      assert e.size == q - st.lastAddr;
      assert CloseOut(st, q) == st.out + [e];
      forall x: int | x < q ensures CoverType(st.out + [e], x) == TypeAt(t, x) {
        CoverTypeAppend(st.out, e, x);
        assert Agrees(t, st, x);
      }
    } else {
      forall x: int | x < q ensures CoverType(st.out, x) == TypeAt(t, x) {
        assert Agrees(t, st, x);
      }
    }
  }

  /** A point that leaves the overlap type unchanged only updates the overlap list. */
  lemma StepKeep(t: seq<Entry>, s: seq<ChangeMember>, k: nat, st: Sweep, ov': seq<nat>)
    requires SortedPoints(t, s) && k < |s| && SweepInv(t, s, k, st)
    requires Frontier(s, k) <= s[k].addr
    requires forall x: int :: x < s[k].addr ==> Agrees(t, st, x)
    requires ov' == NextOverlap(t, st.overlap, s[k]) && OpenList(t, s[..k + 1], ov')
    requires OverlapType(t, ov') == st.lastType
    ensures SweepInv(t, s, k + 1, SweepStep(t, st, s[k]))
  {
    var st' := st.(overlap := ov');
    assert SweepStep(t, st, s[k]) == st';
    var q: int := s[k].addr;
    assert Frontier(s, k + 1) == q;
    assert Bound(st, Frontier(s, k)) <= Bound(st', q);
    forall x: int | x < q ensures Agrees(t, st', x) {
      assert Agrees(t, st, x);
    }
  }

  /** A point that changes the overlap type when the table is full stops the sweep. */
  lemma StepFull(t: seq<Entry>, s: seq<ChangeMember>, k: nat, st: Sweep, ov': seq<nat>)
    requires SortedPoints(t, s) && k < |s| && SweepInv(t, s, k, st)
    requires Frontier(s, k) <= s[k].addr
    requires forall x: int :: x < s[k].addr ==> Agrees(t, st, x)
    requires ov' == NextOverlap(t, st.overlap, s[k])
    requires OverlapType(t, ov') != st.lastType
    requires Closes(st, s[k].addr) && |st.out| + 1 >= E820_MAX_ENTRIES
    ensures FullInv(t, SweepStep(t, st, s[k]))
  {
    var q := s[k].addr;
    CloseAgrees(t, st, Frontier(s, k), q);
    var out := CloseOut(st, q);
    assert SweepStep(t, st, s[k]) == Sweep(ov', out, st.lastType, st.lastAddr, true);
    forall x: int | CoverType(out, x) != 0 ensures CoverType(out, x) == TypeAt(t, x) {
      if x >= q {
        CoverTypeBeyond(out, q, x);
      }
    }
  }

  /** A point that changes the overlap type with room left closes the open entry and opens the next. */
  lemma StepOpen(t: seq<Entry>, s: seq<ChangeMember>, k: nat, st: Sweep, ov': seq<nat>)
    requires SortedPoints(t, s) && k < |s| && SweepInv(t, s, k, st)
    requires Frontier(s, k) <= s[k].addr
    requires forall x: int :: x < s[k].addr ==> Agrees(t, st, x)
    requires ov' == NextOverlap(t, st.overlap, s[k]) && OpenList(t, s[..k + 1], ov')
    requires OverlapType(t, ov') != st.lastType
    requires !(Closes(st, s[k].addr) && |st.out| + 1 >= E820_MAX_ENTRIES)
    ensures SweepInv(t, s, k + 1, SweepStep(t, st, s[k]))
  {
    var q := s[k].addr;
    var cur := OverlapType(t, ov');
    CloseAgrees(t, st, Frontier(s, k), q);
    var out := CloseOut(st, q);
    var st' := Sweep(ov', out, cur, if cur != 0 then q else st.lastAddr, false);
    assert SweepStep(t, st, s[k]) == st';
    assert Frontier(s, k + 1) == q;
    forall x: int | x < q ensures Agrees(t, st', x) {
    }
  }

  lemma SweepStepInv(t: seq<Entry>, s: seq<ChangeMember>, k: nat, st: Sweep)
    requires SortedPoints(t, s) && k < |s| && SweepInv(t, s, k, st)
    ensures var st' := SweepStep(t, st, s[k]);
      if st'.full then FullInv(t, st') else SweepInv(t, s, k + 1, st')
  {
    ExtendAgrees(t, s, k, st);
    var ov' := OverlapStep(t, s, k, st.overlap);
    if OverlapType(t, ov') == st.lastType {
      StepKeep(t, s, k, st, ov');
    } else if Closes(st, s[k].addr) && |st.out| + 1 >= E820_MAX_ENTRIES {
      StepFull(t, s, k, st, ov');
    } else {
      StepOpen(t, s, k, st, ov');
    }
  }

  lemma {:induction false} SweepPrefix(t: seq<Entry>, s: seq<ChangeMember>, k: nat)
    requires SortedPoints(t, s) && k <= |s|
    ensures var st := SweepPoints(t, s[..k]);
      if st.full then FullInv(t, st) else SweepInv(t, s, k, st)
  {
    if k == 0 {
      assert s[..0] == [];
    } else {
      SweepPrefix(t, s, k - 1);
      assert s[..k][..k - 1] == s[..k - 1];
      assert s[..k][k - 1] == s[k - 1];
      var st := SweepPoints(t, s[..k - 1]);
      if !st.full {
        SweepStepInv(t, s, k - 1, st);
      }
    }
  }

  /** Once the cap stops the sweep, the remaining points change nothing. */
  lemma {:induction false} FullPersists(t: seq<Entry>, s: seq<ChangeMember>, k: nat, n: nat)
    requires k <= n <= |s| && SweepPoints(t, s[..k]).full
    ensures SweepPoints(t, s[..n]) == SweepPoints(t, s[..k])
  {
    if n > k {
      FullPersists(t, s, k, n - 1);
      var st := SweepPoints(t, s[..n - 1]);
      assert st.full;
      SweepPointsExtend(t, s, n);
      assert SweepPoints(t, s[..n]) == st;
    }
  }

  lemma SweepPointsExtend(t: seq<Entry>, s: seq<ChangeMember>, n: nat)
    requires 0 < n <= |s|
    ensures var st := SweepPoints(t, s[..n - 1]);
      SweepPoints(t, s[..n]) == if st.full then st else SweepStep(t, st, s[n - 1])
  {
    assert s[..n][..n - 1] == s[..n - 1];
  }

  /**
   * What one iteration of the sweep needs to know about point k: its entry
   * exists, an end point's entry is in the overlap list, the new list is in
   * range, and the step is the list update followed by Emit.
   */
  lemma SweepStepFacts(t: seq<Entry>, s: seq<ChangeMember>, k: nat) returns (ov': seq<nat>)
    requires SortedPoints(t, s) && k < |s| && !SweepPoints(t, s[..k]).full
    ensures s[k].entry < |t| && |ov'| <= |t| && forall j :: 0 <= j < |ov'| ==> ov'[j] < |t|
    ensures var st := SweepPoints(t, s[..k]);
      && ov' == NextOverlap(t, st.overlap, s[k])
      && SweepPoints(t, s[..k + 1]) == Emit(st.(overlap := ov'), OverlapType(t, ov'), s[k].addr)
      && (s[k].addr != t[s[k].entry].addr ==> s[k].entry in st.overlap)
  {
    SweepPrefix(t, s, k);
    var st := SweepPoints(t, s[..k]);
    ov' := OverlapStep(t, s, k, st.overlap);
    assert s[..k + 1][..k] == s[..k] && s[..k + 1][k] == s[k];
    assert SweepPoints(t, s[..k + 1]) == SweepStep(t, st, s[k]);
    SweepStepIsEmit(t, st, s[k]);
  }

  /** After the last point no entry is open, so the emitted map is exact everywhere. */
  lemma SweepDone(t: seq<Entry>, s: seq<ChangeMember>, st: Sweep)
    requires SortedPoints(t, s) && SweepInv(t, s, |s|, st)
    ensures forall x: int :: CoverType(st.out, x) == TypeAt(t, x)
  {
    SortedPointsFacts(t, s);
    assert s[..|s|] == s;
    var f := Frontier(s, |s|);
    forall i | 0 <= i < |t| ensures !IsOpen(t, s, i) {
      if t[i].size != 0 && !Wraps(t[i]) {
        assert EndPoint(t, i) in s;
      }
    }
    forall i | 0 <= i < |t| ensures i in st.overlap <==> Covers(t[i], f) {
      OpenCovering(t, s, |s|, f, i);
    }
    OverlapIsTypeAt(t, st.overlap, f);
    assert st.lastType == 0;
    forall x: int ensures CoverType(st.out, x) == TypeAt(t, x) {
      if x >= f {
        forall i | 0 <= i < |t| ensures !Covers(t[i], x) {
          OpenCovering(t, s, |s|, x, i);
        }
        CoverTypeBeyond(st.out, f, x);
      } else {
        assert Agrees(t, st, x);
      }
    }
  }

  /**
   * The sanitized map is ascending, disjoint, non-empty and typed, holds at
   * most 128 entries, and gives every address it covers the highest input
   * type there. Unless the 128-entry cap stopped the sweep, it covers every
   * address some input entry covers, with that highest type.
   */
  lemma SweepCorrect(t: seq<Entry>, s: seq<ChangeMember>)
    requires SortedPoints(t, s)
    ensures var st := SweepPoints(t, s);
      && Sanitized(st.out)
      && |st.out| <= E820_MAX_ENTRIES
      && (st.full <==> |st.out| == E820_MAX_ENTRIES)
      && (forall x: int :: CoverType(st.out, x) != 0 ==> CoverType(st.out, x) == TypeAt(t, x))
      && (!st.full ==> forall x: int :: CoverType(st.out, x) == TypeAt(t, x))
  {
    SweepPrefix(t, s, |s|);
    assert s[..|s|] == s;
    var st := SweepPoints(t, s);
    if !st.full {
      SweepDone(t, s, st);
    }
  }

  /** The same for the order SortChangePoints produces. */
  lemma SanitizedEntriesCorrect(t: seq<Entry>)
    requires NoWrap(t)
    ensures Sanitized(SanitizedEntries(t))
    ensures |SanitizedEntries(t)| <= E820_MAX_ENTRIES
    ensures forall x :: CoverType(SanitizedEntries(t), x) != 0 ==> CoverType(SanitizedEntries(t), x) == TypeAt(t, x)
    ensures |SanitizedEntries(t)| < E820_MAX_ENTRIES ==> forall x :: CoverType(SanitizedEntries(t), x) == TypeAt(t, x)
  {
    SweepCorrect(t, SortChangePoints(t, ChangePoints(t, |t|)));
  }

  /** No entry of a sanitized map wraps: each ends inside some input entry. */
  lemma SanitizedNoWrap(t: seq<Entry>)
    requires NoWrap(t)
    ensures NoWrap(SanitizedEntries(t))
  {
    var out := SanitizedEntries(t);
    SanitizedEntriesCorrect(t);
    forall i | 0 <= i < |out|
      ensures !Wraps(out[i])
    {
      var x := End(out[i]) - 1;
      CoverTypeUnique(out, i, x);
      var j :| 0 <= j < |t| && Covers(t[j], x) && t[j].kind == TypeAt(t, x);
      assert !Wraps(t[j]);
    }
  }
}
