/**
 * The kernel's C string and memory routines over one byte-addressed memory:
 * `mem[p]` is the byte at address p, and a C string at p is the bytes from
 * p up to (not including) the first NUL. Pointers are indices into `mem`,
 * NULL results are `None`.
 */
module StringLib {
  import opened Machine
  import opened WordAtATime
  import opened Types

  /** `E2BIG` from the kernel's errno list ("argument list too long"). */
  const E2BIG: int := 7

  /** `(char)c`: the low byte of an int argument. */
  function CharOf(c: int): bv8
  {
    (c % 256) as bv8
  }

  /** m with the bytes from `at` on replaced by data. */
  function Overwrite<T>(m: seq<T>, at: nat, data: seq<T>): (r: seq<T>)
    requires at + |data| <= |m|
    ensures |r| == |m|
  {
    m[..at] + data + m[at + |data|..]
  }

  /** Overwrite, byte by byte: inside [at, at + |data|) the data, elsewhere m. */
  lemma OverwriteAt<T>(m: seq<T>, at: nat, data: seq<T>, k: nat)
    requires at + |data| <= |m| && k < |m|
    ensures Overwrite(m, at, data)[k] == if at <= k < at + |data| then data[k - at] else m[k]
  {}

  /** A sequence holding data on [at, at + |data|) and m elsewhere is that Overwrite. */
  lemma OverwriteIntro<T>(r: seq<T>, m: seq<T>, at: nat, data: seq<T>)
    requires at + |data| <= |m| && |r| == |m|
    requires forall k :: 0 <= k < |m| && !(at <= k < at + |data|) ==> r[k] == m[k]
    requires forall k :: at <= k < at + |data| ==> r[k] == data[k - at]
    ensures r == Overwrite(m, at, data)
  {
    forall k | 0 <= k < |m|
      ensures r[k] == Overwrite(m, at, data)[k]
    {
      OverwriteAt(m, at, data, k);
    }
  }

  /** OverwriteIntro for data copied from m itself, from src on. */
  lemma CopyIntro(r: seq<bv8>, m: seq<bv8>, dest: nat, src: nat, count: nat)
    requires dest + count <= |m| && src + count <= |m| && |r| == |m|
    requires forall k :: 0 <= k < |m| && !(dest <= k < dest + count) ==> r[k] == m[k]
    requires forall k :: dest <= k < dest + count ==> r[k] == m[src + k - dest]
    ensures r == Overwrite(m, dest, m[src..src + count])
  {
    OverwriteIntro(r, m, dest, m[src..src + count]);
  }

  // ---------------------------------------------------------------------
  // Specification functions on the bytes of memory
  // ---------------------------------------------------------------------

  /** The length of the string at s: bytes before the first NUL (all of m[s..] when there is none). */
  function StrLen(m: seq<bv8>, s: nat): (n: nat)
    requires s <= |m|
    ensures s + n <= |m|
  {
    FirstIndex(m[s..], 0)
  }

  /** A NUL occurs at or after s: the string at s ends inside memory. */
  predicate Terminated(m: seq<bv8>, s: nat)
  {
    s <= |m| && s + StrLen(m, s) < |m|
  }

  /** The characters of the string at s. */
  function Str(m: seq<bv8>, s: nat): seq<bv8>
    requires s <= |m|
  {
    m[s..s + StrLen(m, s)]
  }

  /** The string at s holds no NUL, and a terminated string is followed by a NUL. */
  lemma StrLenIsFirstNul(m: seq<bv8>, s: nat)
    requires s <= |m|
    ensures 0 !in Str(m, s)
    ensures Terminated(m, s) ==> m[s + StrLen(m, s)] == 0
  {
    FirstIndexIsFirst(m[s..], 0);
    assert Str(m, s) == m[s..][..StrLen(m, s)];
  }

  /** The first index at which two equally long sequences differ, |a| if none. */
  function FirstMismatch(a: seq<bv8>, b: seq<bv8>): (k: nat)
    requires |a| == |b|
    ensures k <= |a|
  {
    if |a| == 0 || a[0] != b[0] then 0 else 1 + FirstMismatch(a[1..], b[1..])
  }

  /** The sequences agree before FirstMismatch and differ at it; it is |a| exactly when a == b. */
  lemma {:induction false} FirstMismatchIsFirst(a: seq<bv8>, b: seq<bv8>)
    requires |a| == |b|
    ensures a[..FirstMismatch(a, b)] == b[..FirstMismatch(a, b)]
    ensures FirstMismatch(a, b) < |a| ==> a[FirstMismatch(a, b)] != b[FirstMismatch(a, b)]
    ensures (FirstMismatch(a, b) == |a|) == (a == b)
  {
    if |a| > 0 && a[0] == b[0] {
      FirstMismatchIsFirst(a[1..], b[1..]);
      assert a == [a[0]] + a[1..] && b == [b[0]] + b[1..];
    }
  }

  /** Unsigned-byte lexicographic order of strings: a proper prefix is smaller. */
  predicate LexLess(a: seq<bv8>, b: seq<bv8>)
  {
    |b| > 0 && (|a| == 0 || a[0] < b[0] || (a[0] == b[0] && LexLess(a[1..], b[1..])))
  }

  /** The three-way result strcmp promises: 0 for equal strings, -1 when a sorts first, else 1. */
  function Compare(a: seq<bv8>, b: seq<bv8>): (r: int)
    ensures -1 <= r <= 1
  {
    if a == b then 0 else if LexLess(a, b) then -1 else 1
  }

  lemma {:induction false} LexLessIrreflexive(a: seq<bv8>)
    ensures !LexLess(a, a)
  {
    if |a| > 0 {
      LexLessIrreflexive(a[1..]);
    }
  }

  /** Two different strings are ordered one way or the other, and never both ways. */
  lemma {:induction false} LexLessTotal(a: seq<bv8>, b: seq<bv8>)
    requires a != b
    ensures LexLess(a, b) != LexLess(b, a)
  {
    if |a| > 0 && |b| > 0 && a[0] == b[0] {
      assert a == [a[0]] + a[1..] && b == [b[0]] + b[1..];
      LexLessTotal(a[1..], b[1..]);
    }
  }

  /** Swapping the operands negates the comparison. */
  lemma CompareAntisymmetric(a: seq<bv8>, b: seq<bv8>)
    ensures Compare(a, b) == -Compare(b, a)
  {
    if a != b {
      LexLessTotal(a, b);
    }
  }

  /** Byte i of the string a followed by its NUL terminator. */
  function CharAt(a: seq<bv8>, i: nat): bv8
    requires i <= |a|
  {
    if i < |a| then a[i] else 0
  }

  /**
   * Comparing two NUL-free strings that agree on their first i characters
   * is decided by the unsigned bytes at position i (the terminator counting
   * as 0), as strcmp's loop reads them.
   */
  lemma {:induction false} CompareAt(a: seq<bv8>, b: seq<bv8>, i: nat)
    requires 0 !in a && 0 !in b
    requires i <= |a| && i <= |b| && a[..i] == b[..i]
    requires CharAt(a, i) != CharAt(b, i) || CharAt(a, i) == 0
    ensures Compare(a, b) == if CharAt(a, i) == CharAt(b, i) then 0 else if CharAt(a, i) < CharAt(b, i) then -1 else 1
    decreases i
  {
    if i == 0 {
      CompareFirst(a, b);
    } else {
      assert a[0] == b[0] by {
        assert a[..i][0] == b[..i][0];
      }
      assert a[1..][..i - 1] == b[1..][..i - 1] by {
        assert a[1..][..i - 1] == a[..i][1..];
        assert b[1..][..i - 1] == b[..i][1..];
      }
      NulFreeTail(a);
      NulFreeTail(b);
      CompareAt(a[1..], b[1..], i - 1);
      assert CharAt(a, i) == CharAt(a[1..], i - 1) && CharAt(b, i) == CharAt(b[1..], i - 1);
      CompareTail(a, b);
    }
  }

  /** The base case of CompareAt: the first characters decide. */
  lemma CompareFirst(a: seq<bv8>, b: seq<bv8>)
    requires 0 !in a && 0 !in b
    requires CharAt(a, 0) != CharAt(b, 0) || CharAt(a, 0) == 0
    ensures Compare(a, b) == if CharAt(a, 0) == CharAt(b, 0) then 0 else if CharAt(a, 0) < CharAt(b, 0) then -1 else 1
  {
    if |a| > 0 {
      assert a[0] in a;
    }
    if |b| > 0 {
      assert b[0] in b;
    }
  }

  lemma NulFreeTail(a: seq<bv8>)
    requires |a| > 0 && 0 !in a
    ensures 0 !in a[1..]
  {
    assert forall x :: x in a[1..] ==> x in a;
  }

  /** Strings with the same first character compare as their tails. */
  lemma CompareTail(a: seq<bv8>, b: seq<bv8>)
    requires |a| > 0 && |b| > 0 && a[0] == b[0]
    ensures Compare(a, b) == Compare(a[1..], b[1..])
  {
    assert a == [a[0]] + a[1..] && b == [b[0]] + b[1..];
  }

  /** The string at s limited to n characters, as strncmp sees it. */
  function StrPrefix(m: seq<bv8>, s: nat, n: nat): seq<bv8>
    requires s <= |m|
  {
    Str(m, s)[..Min(StrLen(m, s), n)]
  }

  /** b occurs in a at position k. */
  predicate OccursAt(a: seq<bv8>, b: seq<bv8>, k: nat)
  {
    k + |b| <= |a| && a[k..k + |b|] == b
  }

  // ---------------------------------------------------------------------
  // Memory routines
  // ---------------------------------------------------------------------

  /** The difference of the first differing byte pair of two equally long byte strings, 0 if none. */
  function MemDiff(a: seq<bv8>, b: seq<bv8>): int
    requires |a| == |b|
  {
    var k := FirstMismatch(a, b);
    if k == |a| then 0 else a[k] as int - b[k] as int
  }

  /** MemDiff is 0 exactly for equal strings, and otherwise has the sign of the first differing pair. */
  lemma MemDiffSign(a: seq<bv8>, b: seq<bv8>)
    requires |a| == |b|
    ensures (MemDiff(a, b) == 0) == (a == b)
    ensures MemDiff(a, b) == -MemDiff(b, a)
  {
    FirstMismatchIsFirst(a, b);
    FirstMismatchSymmetric(a, b);
  }

  lemma {:induction false} FirstMismatchSymmetric(a: seq<bv8>, b: seq<bv8>)
    requires |a| == |b|
    ensures FirstMismatch(a, b) == FirstMismatch(b, a)
  {
    if |a| > 0 && a[0] == b[0] {
      FirstMismatchSymmetric(a[1..], b[1..]);
    }
  }

  /** `memcmp`: the difference of the first differing unsigned byte pair, 0 when the count bytes agree. */
  method MemCmp(mem: array<bv8>, cs: nat, ct: nat, count: nat) returns (res: int)
    requires cs + count <= mem.Length && ct + count <= mem.Length
    ensures res == MemDiff(mem[cs..cs + count], mem[ct..ct + count])
    ensures (res == 0) == (mem[cs..cs + count] == mem[ct..ct + count])
  {
    ghost var a, b := mem[cs..cs + count], mem[ct..ct + count];
    var i := 0;
    res := 0;
    while i < count
      invariant i <= count && res == 0
      invariant forall j :: 0 <= j < i ==> a[j] == b[j]
    {
      var c1, c2 := mem[cs + i], mem[ct + i];
      assert c1 == a[i] && c2 == b[i];
      res := c1 as int - c2 as int;
      ByteDiffZero(c1, c2);
      if res != 0 {
        MismatchHere(a, b, i);
        MemDiffSign(a, b);
        return;
      }
      i := i + 1;
    }
    assert a == b;
    MemDiffSign(a, b);
  }

  /** Two unsigned bytes have difference 0 exactly when they are equal. */
  lemma ByteDiffZero(x: bv8, y: bv8)
    ensures (x as int - y as int == 0) == (x == y)
  {}

  /** A first difference at i, after agreement before it, is FirstMismatch. */
  lemma {:induction false} MismatchHere(a: seq<bv8>, b: seq<bv8>, i: nat)
    requires |a| == |b| && i < |a| && a[i] != b[i]
    requires forall j :: 0 <= j < i ==> a[j] == b[j]
    ensures FirstMismatch(a, b) == i
    decreases i
  {
    if i > 0 {
      MismatchHere(a[1..], b[1..], i - 1);
    }
  }

  /**
   * The copy loop of memcpy and of memmove when dest <= src: byte by byte
   * upwards. Correct unless dest lies strictly inside the source range.
   */
  method CopyForward(mem: array<bv8>, dest: nat, src: nat, count: nat)
    requires dest + count <= mem.Length && src + count <= mem.Length
    requires dest <= src || src + count <= dest
    modifies mem
    ensures mem[..] == Overwrite(old(mem[..]), dest, old(mem[src..src + count]))
  {
    ghost var m0 := mem[..];
    var i := 0;
    while i < count
      invariant i <= count && |m0| == mem.Length
      invariant forall k :: 0 <= k < mem.Length && !(dest <= k < dest + i) ==> mem[k] == m0[k]
      invariant forall k :: dest <= k < dest + i ==> mem[k] == m0[src + k - dest]
    {
      assert mem[src + i] == m0[src + i];
      mem[dest + i] := mem[src + i];
      i := i + 1;
    }
    CopyIntro(mem[..], m0, dest, src, count);
  }

  /** The copy loop of memmove when dest > src: byte by byte downwards from the end. */
  method CopyBackward(mem: array<bv8>, dest: nat, src: nat, count: nat)
    requires dest + count <= mem.Length && src + count <= mem.Length
    requires src <= dest || dest + count <= src
    modifies mem
    ensures mem[..] == Overwrite(old(mem[..]), dest, old(mem[src..src + count]))
  {
    ghost var m0 := mem[..];
    var n: nat := count;
    while n > 0
      invariant n <= count && |m0| == mem.Length
      invariant forall k :: 0 <= k < mem.Length && !(dest + n <= k < dest + count) ==> mem[k] == m0[k]
      invariant forall k :: dest + n <= k < dest + count ==> mem[k] == m0[src + k - dest]
    {
      n := n - 1;
      assert mem[src + n] == m0[src + n];
      mem[dest + n] := mem[src + n];
    }
    CopyIntro(mem[..], m0, dest, src, count);
  }

  /** `memcpy`: copies count bytes upwards and returns dest. */
  method MemCpy(mem: array<bv8>, dest: nat, src: nat, count: nat) returns (r: nat)
    requires dest + count <= mem.Length && src + count <= mem.Length
    requires dest <= src || src + count <= dest
    modifies mem
    ensures r == dest
    ensures mem[..] == Overwrite(old(mem[..]), dest, old(mem[src..src + count]))
  {
    CopyForward(mem, dest, src, count);
    r := dest;
  }

  /** `memmove`: like memcpy, for any overlap, by choosing the direction from the pointer order. */
  method MemMove(mem: array<bv8>, dest: nat, src: nat, count: nat) returns (r: nat)
    requires dest + count <= mem.Length && src + count <= mem.Length
    modifies mem
    ensures r == dest
    ensures mem[..] == Overwrite(old(mem[..]), dest, old(mem[src..src + count]))
  {
    if dest <= src {
      CopyForward(mem, dest, src, count);
    } else {
      CopyBackward(mem, dest, src, count);
    }
    r := dest;
  }

  /** `memset`: count copies of (char)c from s on; returns s. */
  method MemSet(mem: array<bv8>, s: nat, c: int, count: nat) returns (r: nat)
    requires s + count <= mem.Length
    modifies mem
    ensures r == s
    ensures mem[..] == Overwrite(old(mem[..]), s, seq(count, _ => CharOf(c)))
  {
    ghost var m0 := mem[..];
    var i := 0;
    while i < count
      invariant i <= count && |m0| == mem.Length
      invariant forall k :: 0 <= k < mem.Length && !(s <= k < s + i) ==> mem[k] == m0[k]
      invariant forall k :: s <= k < s + i ==> mem[k] == CharOf(c)
    {
      mem[s + i] := CharOf(c);
      i := i + 1;
    }
    ghost var data := seq(count, _ => CharOf(c));
    OverwriteIntro(mem[..], m0, s, data);
    r := s;
  }

  /** `memfind64`: the index of the first of the n words equal to v, or n. */
  method MemFind64(s: array<u64>, v: u64, n: nat) returns (i: nat)
    requires n <= s.Length
    ensures i <= n && (i < n ==> s[i] == v) && v !in s[..i]
  {
    i := 0;
    while i < n
      invariant i <= n && v !in s[..i]
    {
      if s[i] == v {
        break;
      }
      assert s[..i + 1] == s[..i] + [s[i]];
      i := i + 1;
    }
  }

  // ---------------------------------------------------------------------
  // String routines
  // ---------------------------------------------------------------------

  /** Character i of the string at s, the terminator counting as position StrLen, is the byte at s + i. */
  lemma StrCharAt(m: seq<bv8>, s: nat, n: nat, i: nat)
    requires s <= |m| && (s + n <= |m| || Terminated(m, s))
    requires i < n && i <= StrLen(m, s)
    ensures s + i < |m| && i <= |StrPrefix(m, s, n)|
    ensures CharAt(StrPrefix(m, s, n), i) == m[s + i]
    ensures 0 !in StrPrefix(m, s, n)
  {
    StrLenIsFirstNul(m, s);
    if i == StrLen(m, s) && s + i == |m| {
      assert false;
    }
    if i == StrLen(m, s) {
      FirstIndexIsFirst(m[s..], 0);
    }
    assert forall x :: x in StrPrefix(m, s, n) ==> x in Str(m, s);
  }

  /** `strlen`: the index of the first NUL. */
  method StrLenOf(mem: array<bv8>, s: nat) returns (r: nat)
    requires Terminated(mem[..], s)
    ensures r == StrLen(mem[..], s)
    ensures s + r < mem.Length && mem[s + r] == 0 && 0 !in mem[s..s + r]
  {
    ghost var L := StrLen(mem[..], s);
    StrLenIsFirstNul(mem[..], s);
    assert Str(mem[..], s) == mem[s..s + L];
    r := 0;
    while mem[s + r] != 0
      invariant r <= L
      decreases L - r
    {
      if r == L {
        assert false;
      }
      r := r + 1;
    }
  }

  /** `strnlen`: the length of the string, but at most count; no byte from s + count on is read. */
  method StrNLen(mem: array<bv8>, s: nat, count: nat) returns (r: nat)
    requires s <= mem.Length && (s + count <= mem.Length || Terminated(mem[..], s))
    ensures r == Min(StrLen(mem[..], s), count)
  {
    ghost var L := StrLen(mem[..], s);
    StrLenIsFirstNul(mem[..], s);
    FirstIndexIsFirst(mem[s..], 0);
    r := 0;
    var left := count;
    while left > 0 && mem[s + r] != 0
      invariant r <= L && r + left == count
      invariant r < count ==> s + r < mem.Length
      decreases left
    {
      if r == L {
        assert false;
      }
      left := left - 1;
      r := r + 1;
    }
  }

  /** `strcmp`: -1, 0 or 1 as the string at cs sorts before, equal to or after the one at ct. */
  method StrCmp(mem: array<bv8>, cs: nat, ct: nat) returns (res: int)
    requires Terminated(mem[..], cs) && Terminated(mem[..], ct)
    ensures res == Compare(Str(mem[..], cs), Str(mem[..], ct))
  {
    ghost var m := mem[..];
    ghost var a, b := Str(m, cs), Str(m, ct);
    assert a == StrPrefix(m, cs, |m|) && b == StrPrefix(m, ct, |m|);
    var i := 0;
    while true
      invariant i <= |a| && i <= |b| && forall j :: 0 <= j < i ==> a[j] == b[j]
      decreases |a| - i
    {
      StrCharAt(m, cs, |m|, i);
      StrCharAt(m, ct, |m|, i);
      var c1, c2 := mem[cs + i], mem[ct + i];
      if c1 != c2 {
        assert a[..i] == b[..i];
        CompareAt(a, b, i);
        return if c1 < c2 then -1 else 1;
      }
      if c1 == 0 {
        assert a[..i] == b[..i];
        CompareAt(a, b, i);
        break;
      }
      i := i + 1;
    }
    return 0;
  }

  /** `strncmp`: strcmp of the two strings cut to at most count characters; 0 when count is 0. */
  method StrNCmp(mem: array<bv8>, cs: nat, ct: nat, count: nat) returns (res: int)
    requires cs <= mem.Length && (cs + count <= mem.Length || Terminated(mem[..], cs))
    requires ct <= mem.Length && (ct + count <= mem.Length || Terminated(mem[..], ct))
    ensures res == Compare(StrPrefix(mem[..], cs, count), StrPrefix(mem[..], ct, count))
  {
    ghost var m := mem[..];
    ghost var a, b := StrPrefix(m, cs, count), StrPrefix(m, ct, count);
    var i := 0;
    var left := count;
    while left > 0
      invariant i + left == count && i <= StrLen(m, cs) && i <= StrLen(m, ct)
      invariant i <= |a| && i <= |b| && forall j :: 0 <= j < i ==> a[j] == b[j]
    {
      StrCharAt(m, cs, count, i);
      StrCharAt(m, ct, count, i);
      var c1, c2 := mem[cs + i], mem[ct + i];
      if c1 != c2 {
        assert a[..i] == b[..i];
        CompareAt(a, b, i);
        return if c1 < c2 then -1 else 1;
      }
      if c1 == 0 {
        assert a[..i] == b[..i];
        CompareAt(a, b, i);
        return 0;
      }
      i := i + 1;
      left := left - 1;
    }
    assert a == a[..i] && b == b[..i];
    return 0;
  }
  /** StrLenIsFirstNul byte by byte: no NUL before position StrLen, a NUL at it when terminated. */
  lemma StrBytes(m: seq<bv8>, s: nat)
    requires s <= |m|
    ensures forall k :: s <= k < s + StrLen(m, s) ==> m[k] != 0
    ensures Terminated(m, s) ==> m[s + StrLen(m, s)] == 0
  {
    StrLenIsFirstNul(m, s);
    forall k | s <= k < s + StrLen(m, s)
      ensures m[k] != 0
    {
      assert m[k] == Str(m, s)[k - s];
    }
  }

  /** n non-NUL bytes from s make the string at least n long, and exactly n when a NUL follows. */
  lemma StrLenFrom(m: seq<bv8>, s: nat, n: nat)
    requires s + n <= |m| && forall k :: s <= k < s + n ==> m[k] != 0
    ensures StrLen(m, s) >= n
    ensures s + n < |m| && m[s + n] == 0 ==> StrLen(m, s) == n && Terminated(m, s)
  {
    assert forall j :: 0 <= j < n ==> m[s..][j] == m[s + j];
    FirstIndexFrom(m[s..], 0, n);
  }

  /**
   * `strchr`: the first position from s holding (char)c, the terminating
   * NUL included, or None when the string does not contain it.
   */
  method StrChr(mem: array<bv8>, s: nat, c: int) returns (r: Option<nat>)
    requires Terminated(mem[..], s)
    ensures r.Some? ==> s <= r.value <= s + StrLen(mem[..], s) && mem[r.value] == CharOf(c)
    ensures r.Some? ==> forall j :: s <= j < r.value ==> mem[j] != CharOf(c)
    ensures r.None? ==> forall j :: s <= j <= s + StrLen(mem[..], s) ==> mem[j] != CharOf(c)
  {
    ghost var L := StrLen(mem[..], s);
    StrBytes(mem[..], s);
    var p := s;
    while mem[p] != CharOf(c)
      invariant s <= p <= s + L
      invariant forall j :: s <= j < p ==> mem[j] != CharOf(c)
      decreases s + L - p
    {
      if mem[p] == 0 {
        return None;
      }
      p := p + 1;
    }
    return Some(p);
  }

  /**
   * `strrchr`: the last position from s holding (char)c, the terminating
   * NUL included, or None when the string does not contain it.
   */
  method StrRChr(mem: array<bv8>, s: nat, c: int) returns (r: Option<nat>)
    requires Terminated(mem[..], s)
    ensures r.Some? ==> s <= r.value <= s + StrLen(mem[..], s) && mem[r.value] == CharOf(c)
    ensures r.Some? ==> forall j :: r.value < j <= s + StrLen(mem[..], s) ==> mem[j] != CharOf(c)
    ensures r.None? ==> forall j :: s <= j <= s + StrLen(mem[..], s) ==> mem[j] != CharOf(c)
  {
    ghost var L := StrLen(mem[..], s);
    StrBytes(mem[..], s);
    var last := None;
    var p := s;
    while true
      invariant s <= p <= s + L
      invariant last.Some? ==> s <= last.value < p && mem[last.value] == CharOf(c)
      invariant last.Some? ==> forall j :: last.value < j < p ==> mem[j] != CharOf(c)
      invariant last.None? ==> forall j :: s <= j < p ==> mem[j] != CharOf(c)
      decreases s + L - p
    {
      if mem[p] == CharOf(c) {
        last := Some(p);
      }
      if mem[p] == 0 {
        break;
      }
      p := p + 1;
    }
    return last;
  }

  /** Comparing the bytes at s1 + k with b, where a lies at s1, is testing for an occurrence of b at offset k of a. */
  lemma MatchAt(m: seq<bv8>, s1: nat, a: seq<bv8>, b: seq<bv8>, k: nat)
    requires s1 + |a| <= |m| && a == m[s1..s1 + |a|] && k + |b| <= |a|
    ensures (m[s1 + k..s1 + k + |b|] == b) == OccursAt(a, b, k)
  {
    var x, y := a[k..k + |b|], m[s1 + k..s1 + k + |b|];
    forall j | 0 <= j < |b|
      ensures x[j] == y[j]
    {
      assert a[k + j] == m[s1..s1 + |a|][k + j];
    }
    assert x == y;
  }

  /** The memcmp test in strstr's loop: does the string at s2, of length l2, occur at offset k of the one at s1? */
  method MatchesAt(mem: array<bv8>, s1: nat, s2: nat, k: nat, l2: nat, ghost a: seq<bv8>, ghost b: seq<bv8>)
    returns (hit: bool)
    requires s1 + |a| <= mem.Length && a == mem[s1..s1 + |a|]
    requires s2 + |b| <= mem.Length && b == mem[s2..s2 + |b|]
    requires l2 == |b| && k + l2 <= |a|
    ensures hit == OccursAt(a, b, k)
  {
    var res := MemCmp(mem, s1 + k, s2, l2);
    MatchAt(mem[..], s1, a, b, k);
    hit := res == 0;
  }

  /** The first offset from k at which b occurs in a, or None. */
  function FindFrom(a: seq<bv8>, b: seq<bv8>, k: nat): Option<nat>
    decreases |a| - k
  {
    if k + |b| > |a| then None else if OccursAt(a, b, k) then Some(k) else FindFrom(a, b, k + 1)
  }

  /** FindFrom finds an occurrence with none before it from k on, and None means there is none from k on. */
  lemma {:induction false} FindFromIsFirst(a: seq<bv8>, b: seq<bv8>, k: nat)
    ensures FindFrom(a, b, k).Some? ==> k <= FindFrom(a, b, k).value && OccursAt(a, b, FindFrom(a, b, k).value)
    ensures FindFrom(a, b, k).Some? ==> forall j: nat :: k <= j < FindFrom(a, b, k).value ==> !OccursAt(a, b, j)
    ensures FindFrom(a, b, k).None? ==> forall j: nat :: k <= j ==> !OccursAt(a, b, j)
    decreases |a| - k
  {
    if k + |b| <= |a| && !OccursAt(a, b, k) {
      FindFromIsFirst(a, b, k + 1);
    }
  }

  /** The empty string occurs at offset 0 of every string. */
  lemma FindEmpty(a: seq<bv8>, b: seq<bv8>)
    requires |b| == 0
    ensures FindFrom(a, b, 0) == Some(0)
  {
    assert a[0..0] == b;
  }

  /**
   * `strstr`: the position of the first occurrence of the string at s2 in
   * the string at s1, s1 itself when s2 is empty, None when there is none.
   */
  method StrStr(mem: array<bv8>, s1: nat, s2: nat) returns (r: Option<nat>)
    requires Terminated(mem[..], s1) && Terminated(mem[..], s2)
    ensures r.Some? == FindFrom(Str(mem[..], s1), Str(mem[..], s2), 0).Some?
    ensures r.Some? ==> r.value == s1 + FindFrom(Str(mem[..], s1), Str(mem[..], s2), 0).value
  {
    ghost var a, b := Str(mem[..], s1), Str(mem[..], s2);
    var l2 := StrLenOf(mem, s2);
    if l2 == 0 {
      FindEmpty(a, b);
      return Some(s1);
    }
    var l1 := StrLenOf(mem, s1);
    assert a == mem[s1..s1 + |a|] && b == mem[s2..s2 + |b|];
    var k := 0;
    while l1 >= l2
      invariant k + l1 == |a| && FindFrom(a, b, 0) == FindFrom(a, b, k)
    {
      l1 := l1 - 1;
      var hit := MatchesAt(mem, s1, s2, k, l2, a, b);
      if hit {
        return Some(s1 + k);
      }
      k := k + 1;
    }
    return None;
  }

  /**
   * What strstr promises: an empty needle is found at s1; otherwise the
   * result is the position of an occurrence with no earlier occurrence, or
   * None when the needle does not occur.
   */
  lemma StrStrFirst(m: seq<bv8>, s1: nat, s2: nat)
    requires s1 <= |m| && s2 <= |m|
    ensures |Str(m, s2)| == 0 ==> FindFrom(Str(m, s1), Str(m, s2), 0) == Some(0)
    ensures FindFrom(Str(m, s1), Str(m, s2), 0).Some? ==> OccursAt(Str(m, s1), Str(m, s2), FindFrom(Str(m, s1), Str(m, s2), 0).value)
    ensures FindFrom(Str(m, s1), Str(m, s2), 0).Some? ==>
      forall j: nat :: j < FindFrom(Str(m, s1), Str(m, s2), 0).value ==> !OccursAt(Str(m, s1), Str(m, s2), j)
    ensures FindFrom(Str(m, s1), Str(m, s2), 0).None? ==> forall j: nat :: !OccursAt(Str(m, s1), Str(m, s2), j)
  {
    FindFromIsFirst(Str(m, s1), Str(m, s2), 0);
    if |Str(m, s2)| == 0 {
      FindEmpty(Str(m, s1), Str(m, s2));
    }
  }
  /**
   * What strscpy leaves behind, given the memory m0 before the call: only
   * dest[0, count) is written; a string shorter than count is copied with its
   * NUL (later bytes of the buffer are left alone or zeroed) and its length
   * returned; a longer one is cut to count - 1 characters plus a NUL and
   * -E2BIG returned, as is -E2BIG with nothing written when count is 0.
   */
  ghost predicate ScpyOutcome(m0: seq<bv8>, m: seq<bv8>, dest: nat, src: nat, count: nat, res: int)
  {
    |m| == |m0| && dest + count <= |m0| && src <= |m0| &&
    (forall k :: 0 <= k < |m| && !(dest <= k < dest + count) ==> m[k] == m0[k]) &&
    var L := StrLen(m0, src);
    if count == 0 then res == -E2BIG
    else if L < count then
      res == L && m[dest + L] == 0 &&
      (forall k :: dest <= k < dest + L ==> m[k] == m0[src + k - dest]) &&
      (forall k :: dest + L < k < dest + count ==> m[k] == m0[k] || m[k] == 0)
    else
      res == -E2BIG && m[dest + count - 1] == 0 &&
      (forall k :: dest <= k < dest + count - 1 ==> m[k] == m0[src + k - dest])
  }

  /**
   * After strscpy into a non-empty buffer, dest holds a terminated string:
   * the source string cut to count - 1 characters. The result is
   * non-negative exactly when the whole source string fit, and then it is
   * its length.
   */
  lemma ScpyString(m0: seq<bv8>, m: seq<bv8>, dest: nat, src: nat, count: nat, res: int)
    requires count > 0 && ScpyOutcome(m0, m, dest, src, count, res)
    ensures Terminated(m, dest) && Str(m, dest) == StrPrefix(m0, src, count - 1)
    ensures (res >= 0) == (StrLen(m0, src) < count)
    ensures res >= 0 ==> res == |Str(m0, src)|
    ensures res < 0 ==> res == -E2BIG
  {
    var L := StrLen(m0, src);
    var n := Min(L, count - 1);
    StrBytes(m0, src);
    assert forall k :: dest <= k < dest + n ==> m[k] == m0[src + k - dest];
    StrLenFrom(m, dest, n);
    var x, y := Str(m, dest), StrPrefix(m0, src, count - 1);
    forall j | 0 <= j < n
      ensures x[j] == y[j]
    {
      assert x[j] == m[dest + j] && y[j] == m0[src + j];
    }
  }

  /** `*(unsigned long *)at = w`: the 8 little-endian bytes of w at at, nothing else. */
  method StoreWord(mem: array<bv8>, at: nat, w: bv64)
    requires at + 8 <= mem.Length
    modifies mem
    ensures forall k :: 0 <= k < mem.Length && !(at <= k < at + 8) ==> mem[k] == old(mem[k])
    ensures forall k :: at <= k < at + 8 ==> mem[k] == BytesOf(w)[k - at]
  {
    var bs := BytesOf(w);
    forall i | 0 <= i < 8 {
      mem[at + i] := bs[i];
    }
  }

  /**
   * `*(unsigned long *)at = c & zero_bytemask(data)` for the word c loaded
   * from b and the zero mask data of its first NUL at byte z: the first z
   * bytes of b followed by zeros.
   */
  method StoreMasked(mem: array<bv8>, at: nat, c: bv64, data: bv64, ghost b: seq<bv8>, ghost z: nat)
    requires at + 8 <= mem.Length && |b| == 8 && z < 8 && c == WordOf(b) && data == LowBytes(z)
    modifies mem
    ensures forall k :: 0 <= k < mem.Length && !(at <= k < at + 8) ==> mem[k] == old(mem[k])
    ensures forall k :: at <= k < at + 8 ==> mem[k] == (b[..z] + ZeroBytes(8 - z))[k - at]
  {
    MaskedStore(b, z);
    StoreWord(mem, at, c & ZeroBytemask(data));
  }

  /**
   * The state of strscpy's loops after n bytes: the first n source bytes,
   * none of them NUL, are copied to dest and nothing else has changed, the
   * two count-byte buffers being disjoint.
   */
  ghost predicate Copied(m0: seq<bv8>, m: seq<bv8>, dest: nat, src: nat, count: nat, n: nat)
  {
    |m| == |m0| && n <= count && dest + count <= |m0| && src + count <= |m0| &&
    (dest + count <= src || src + count <= dest) &&
    (forall k :: 0 <= k < |m| && !(dest <= k < dest + n) ==> m[k] == m0[k]) &&
    (forall k :: dest <= k < dest + n ==> m[k] == m0[src + k - dest]) &&
    (forall k :: src <= k < src + n ==> m0[k] != 0)
  }

  /** The source word still to be read is unchanged. */
  lemma WordIntact(m0: seq<bv8>, m: seq<bv8>, dest: nat, src: nat, count: nat, n: nat)
    requires Copied(m0, m, dest, src, count, n) && n + 8 <= count
    ensures m[src + n..src + n + 8] == m0[src + n..src + n + 8]
  {
    var x, y := m[src + n..src + n + 8], m0[src + n..src + n + 8];
    forall j | 0 <= j < 8
      ensures x[j] == y[j]
    {
      assert x[j] == m[src + n + j] && y[j] == m0[src + n + j];
    }
  }

  /** The source byte still to be read is unchanged. */
  lemma ByteIntact(m0: seq<bv8>, m: seq<bv8>, dest: nat, src: nat, count: nat, n: nat)
    requires Copied(m0, m, dest, src, count, n) && n < count
    ensures m[src + n] == m0[src + n]
  {
  }

  /** Storing a source word without a NUL (as m1) extends the copy by 8 bytes. */
  lemma WordCopied(m0: seq<bv8>, m: seq<bv8>, m1: seq<bv8>, dest: nat, src: nat, count: nat, n: nat, b: seq<bv8>)
    requires Copied(m0, m, dest, src, count, n) && n + 8 <= count
    requires b == m0[src + n..src + n + 8] && 0 !in b && |m1| == |m|
    requires forall k :: 0 <= k < |m| && !(dest + n <= k < dest + n + 8) ==> m1[k] == m[k]
    requires forall k :: dest + n <= k < dest + n + 8 ==> m1[k] == b[k - dest - n]
    ensures Copied(m0, m1, dest, src, count, n + 8)
  {
    forall k | src + n <= k < src + n + 8
      ensures m0[k] != 0
    {
      assert m0[k] == b[k - src - n];
    }
  }

  /** Storing a source byte that is not NUL extends the copy by 1 byte. */
  lemma ByteCopied(m0: seq<bv8>, m: seq<bv8>, dest: nat, src: nat, count: nat, n: nat)
    requires Copied(m0, m, dest, src, count, n) && n < count && m0[src + n] != 0
    ensures Copied(m0, m[dest + n := m0[src + n]], dest, src, count, n + 1)
  {
  }

  /** The outcome of a string shorter than count, from its parts. */
  lemma ShortOutcome(m0: seq<bv8>, m: seq<bv8>, dest: nat, src: nat, count: nat, L: nat)
    requires |m| == |m0| && dest + count <= |m0| && src <= |m0| && StrLen(m0, src) == L < count
    requires forall k :: 0 <= k < |m| && !(dest <= k < dest + count) ==> m[k] == m0[k]
    requires m[dest + L] == 0 && forall k :: dest <= k < dest + L ==> m[k] == m0[src + k - dest]
    requires forall k :: dest + L < k < dest + count ==> m[k] == m0[k] || m[k] == 0
    ensures ScpyOutcome(m0, m, dest, src, count, L)
  {
  }

  /**
   * Storing (as m1) a word whose first NUL is byte z, masked after it, ends
   * strscpy with result n + z.
   */
  lemma LastWord(m0: seq<bv8>, m: seq<bv8>, m1: seq<bv8>, dest: nat, src: nat, count: nat, n: nat, b: seq<bv8>, z: nat)
    requires Copied(m0, m, dest, src, count, n) && n + 8 <= count
    requires b == m0[src + n..src + n + 8] && z < 8 && b[z] == 0
    requires forall j :: 0 <= j < z ==> b[j] != 0
    requires |m1| == |m| && forall k :: 0 <= k < |m| && !(dest + n <= k < dest + n + 8) ==> m1[k] == m[k]
    requires forall k :: dest + n <= k < dest + n + 8 ==> m1[k] == (b[..z] + ZeroBytes(8 - z))[k - dest - n]
    ensures ScpyOutcome(m0, m1, dest, src, count, n + z)
  {
    var d := b[..z] + ZeroBytes(8 - z);
    assert forall j :: 0 <= j < z ==> d[j] == b[j];
    assert forall j :: z <= j < 8 ==> d[j] == 0;
    forall k | src + n <= k < src + n + z
      ensures m0[k] != 0
    {
      assert m0[k] == b[k - src - n];
    }
    assert m0[src + n + z] == b[z];
    StrLenFrom(m0, src, n + z);
    forall k | dest + n <= k < dest + n + z
      ensures m1[k] == m0[src + k - dest]
    {
      assert m1[k] == b[k - dest - n];
    }
    ShortOutcome(m0, m1, dest, src, count, n + z);
  }

  /** Storing the source's NUL as byte n ends strscpy with result n. */
  lemma ByteNul(m0: seq<bv8>, m: seq<bv8>, dest: nat, src: nat, count: nat, n: nat)
    requires Copied(m0, m, dest, src, count, n) && n < count && m0[src + n] == 0
    ensures ScpyOutcome(m0, m[dest + n := 0], dest, src, count, n)
  {
    StrLenFrom(m0, src, n);
  }

  /** Forcing a NUL into the last byte after count copied bytes ends strscpy with -E2BIG. */
  lemma Truncated(m0: seq<bv8>, m: seq<bv8>, dest: nat, src: nat, count: nat)
    requires Copied(m0, m, dest, src, count, count) && count > 0
    ensures ScpyOutcome(m0, m[dest + count - 1 := 0], dest, src, count, -E2BIG)
  {
    StrLenFrom(m0, src, count);
  }

  /** The masked store of the word holding the source's NUL, ending strscpy with n + z. */
  method StoreLastWord(mem: array<bv8>, dest: nat, src: nat, count: nat, n: nat, c: bv64, data: bv64,
                       ghost m0: seq<bv8>, ghost b: seq<bv8>, ghost z: nat)
    requires Copied(m0, mem[..], dest, src, count, n) && n + 8 <= count
    requires b == m0[src + n..src + n + 8] && z < 8 && b[z] == 0 && forall j :: 0 <= j < z ==> b[j] != 0
    requires c == WordOf(b) && data == LowBytes(z)
    modifies mem
    ensures ScpyOutcome(m0, mem[..], dest, src, count, n + z)
  {
    ghost var m := mem[..];
    StoreMasked(mem, dest + n, c, data, b, z);
    LastWord(m0, m, mem[..], dest, src, count, n, b, z);
  }

  /** The store of a source word without a NUL, extending the copy by 8 bytes. */
  method StoreFullWord(mem: array<bv8>, dest: nat, src: nat, count: nat, n: nat, c: bv64,
                       ghost m0: seq<bv8>, ghost b: seq<bv8>)
    requires Copied(m0, mem[..], dest, src, count, n) && n + 8 <= count
    requires b == m0[src + n..src + n + 8] && 0 !in b && c == WordOf(b)
    modifies mem
    ensures Copied(m0, mem[..], dest, src, count, n + 8)
  {
    ghost var m := mem[..];
    LoadStore(b);
    StoreWord(mem, dest + n, c);
    WordCopied(m0, m, mem[..], dest, src, count, n, b);
  }

  /**
   * One turn of strscpy's word loop at offset n: load the source word; if
   * it holds a NUL, store it masked after the NUL and finish with n plus
   * the NUL's byte index, else store it whole.
   */
  method CopyWordStep(mem: array<bv8>, dest: nat, src: nat, count: nat, n: nat, ghost m0: seq<bv8>)
    returns (done: bool, res: int)
    requires n + 8 <= count && Copied(m0, mem[..], dest, src, count, n)
    modifies mem
    ensures done ==> ScpyOutcome(m0, mem[..], dest, src, count, res)
    ensures !done ==> Copied(m0, mem[..], dest, src, count, n + 8)
  {
    ghost var m := mem[..];
    ghost var b := m0[src + n..src + n + 8];
    WordIntact(m0, m, dest, src, count, n);
    assert mem[src + n..src + n + 8] == b;
    var c := WordOf(mem[src + n..src + n + 8]);
    var data := HasZero(c);
    FirstZeroByte(b);
    if data != 0 {
      data := PrepZeroMask(c, data);
      data := CreateZeroMask(data);
      ghost var z := FirstIndex(b, 0);
      StoreLastWord(mem, dest, src, count, n, c, data, m0, b, z);
      return true, n + FindZero(data) as int;
    }
    StoreFullWord(mem, dest, src, count, n, c, m0, b);
    return false, 0;
  }

  /**
   * One turn of strscpy's byte loop at offset n: copy the source byte and
   * finish with n if it was the NUL.
   */
  method CopyByteStep(mem: array<bv8>, dest: nat, src: nat, count: nat, n: nat, ghost m0: seq<bv8>)
    returns (done: bool)
    requires n < count && Copied(m0, mem[..], dest, src, count, n)
    modifies mem
    ensures done ==> ScpyOutcome(m0, mem[..], dest, src, count, n)
    ensures !done ==> Copied(m0, mem[..], dest, src, count, n + 1)
  {
    ByteIntact(m0, mem[..], dest, src, count, n);
    var c := mem[src + n];
    if c == 0 {
      ByteNul(m0, mem[..], dest, src, count, n);
    } else {
      ByteCopied(m0, mem[..], dest, src, count, n);
    }
    mem[dest + n] := c;
    return c == 0;
  }

  /** strscpy's last step after count bytes without a NUL: `dest[res - 1] = '\0'` (res is count > 0 here). */
  method ForceNul(mem: array<bv8>, dest: nat, src: nat, count: nat, ghost m0: seq<bv8>)
    requires count > 0 && Copied(m0, mem[..], dest, src, count, count)
    modifies mem
    ensures ScpyOutcome(m0, mem[..], dest, src, count, -E2BIG)
  {
    Truncated(m0, mem[..], dest, src, count);
    mem[dest + count - 1] := 0;
  }

  /**
   * `strscpy`: copies the string at src into the count-byte buffer at dest,
   * a word at a time while both pointers are 8-aligned and 8 or more bytes
   * remain, then byte by byte; see ScpyOutcome.
   */
  method StrScpy(mem: array<bv8>, dest: nat, src: nat, count: nat) returns (res: int)
    requires dest + count <= mem.Length && src + count <= mem.Length
    requires dest + count <= src || src + count <= dest
    modifies mem
    ensures ScpyOutcome(old(mem[..]), mem[..], dest, src, count, res)
  {
    ghost var m0 := mem[..];
    if count == 0 {
      return -E2BIG;
    }
    var max := if dest % 8 != 0 || src % 8 != 0 then 0 else count;
    var n: nat := 0;
    var left: nat := count;
    while max >= 8
      invariant n + left == count && max <= left && Copied(m0, mem[..], dest, src, count, n)
    {
      var done;
      done, res := CopyWordStep(mem, dest, src, count, n, m0);
      if done {
        return;
      }
      n := n + 8;
      left := left - 8;
      max := max - 8;
    }
    while left > 0
      invariant n + left == count && Copied(m0, mem[..], dest, src, count, n)
    {
      var done := CopyByteStep(mem, dest, src, count, n, m0);
      if done {
        return n;
      }
      n := n + 1;
      left := left - 1;
    }
    assert n == count;
    ForceNul(mem, dest, src, count, m0);
    return -E2BIG;
  }
}
