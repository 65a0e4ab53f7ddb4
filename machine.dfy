/**
 * Machine-level value types shared by the models: the fixed-width unsigned
 * integers of C (`uint8_t` .. `uint64_t`) as bounded subsets of `int`,
 * little-endian decoding of byte strings, and the Option wrapper used for
 * NULL results.
 */
module Machine {
  const U8_LIMIT: int := 0x100
  const U16_LIMIT: int := 0x1_0000
  const U32_LIMIT: int := 0x1_0000_0000
  const U64_LIMIT: int := 0x1_0000_0000_0000_0000

  type u8 = x: int | 0 <= x < 0x100
  type u16 = x: int | 0 <= x < 0x1_0000
  type u32 = x: int | 0 <= x < 0x1_0000_0000
  type u64 = x: int | 0 <= x < 0x1_0000_0000_0000_0000

  datatype Option<T> = None | Some(value: T)

  /** Bit j of a 64-bit word is set. */
  predicate Bit64(w: bv64, j: bv64)
    requires j < 64
  {
    (w >> j) & 1 == 1
  }

  /** 256 to the power n: the number of distinct values of n bytes. */
  function Pow256(n: nat): (r: nat)
    ensures r >= 1
  {
    if n == 0 then 1 else 256 * Pow256(n - 1)
  }

  lemma Pow256Widths()
    ensures Pow256(1) == U8_LIMIT && Pow256(2) == U16_LIMIT
    ensures Pow256(4) == U32_LIMIT && Pow256(8) == U64_LIMIT
  {
    assert Pow256(4) == 0x1_0000_0000;
    assert Pow256(8) == Pow256(4) * Pow256(4) by {
      assert Pow256(8) == 256 * 256 * 256 * 256 * Pow256(4);
    }
  }

  /** The unsigned value of a little-endian byte string (bytes[0] is least significant). */
  function LittleEndian(bytes: seq<u8>): (r: nat)
    ensures r < Pow256(|bytes|)
  {
    if |bytes| == 0 then 0 else bytes[0] + 256 * LittleEndian(bytes[1..])
  }

  /** 2 to the power n. */
  function Pow2(n: nat): (r: nat)
    ensures r >= 1
  {
    if n == 0 then 1 else 2 * Pow2(n - 1)
  }

  lemma {:induction false} Pow2Add(a: nat, b: nat)
    ensures Pow2(a + b) == Pow2(a) * Pow2(b)
  {
    if a > 0 {
      Pow2Add(a - 1, b);
    }
  }

  lemma {:induction false} Pow2Mono(k: nat, n: nat)
    requires k <= n
    ensures Pow2(k) <= Pow2(n)
  {
    if k < n {
      Pow2Mono(k, n - 1);
    }
  }

  lemma Pow2Is64Bit()
    ensures Pow2(64) == U64_LIMIT && Pow2(32) == U32_LIMIT
  {
    assert Pow2(2) == 4;
    Pow2Add(2, 2);
    assert Pow2(4) == 16;
    Pow2Add(4, 4);
    assert Pow2(8) == 256;
    Pow2Add(8, 8);
    assert Pow2(16) == 0x1_0000;
    Pow2Add(16, 16);
    assert Pow2(32) == 0x1_0000_0000;
    Pow2Add(32, 32);
  }

  /** Euclidean division is determined by any quotient/remainder decomposition. */
  lemma DivModUnique(v: int, d: int, q: int, r: int)
    requires d > 0 && 0 <= r < d && v == q * d + r
    ensures v / d == q && v % d == r
  {
    var q', r' := v / d, v % d;
    assert (q - q') * d == r' - r;
    if q - q' >= 1 {
      MulAtLeast(q - q', d);
    } else if q' - q >= 1 {
      MulAtLeast(q' - q, d);
    }
  }

  /** Splitting a remainder by a product: the low digit, then the next one. */
  lemma ModSplit(x: nat, a: nat, b: nat)
    requires a > 0 && b > 0
    ensures x % (a * b) == x % a + a * ((x / a) % b)
    ensures x / (a * b) == (x / a) / b
  {
    var q1, r1 := x / a, x % a;
    var q2, r2 := q1 / b, q1 % b;
    assert x == q2 * (a * b) + (a * r2 + r1) by {
      assert x == a * q1 + r1;
      assert q1 == b * q2 + r2;
      assert a * q1 == a * (b * q2) + a * r2;
      assert a * (b * q2) == q2 * (a * b);
    }
    assert a * r2 + r1 < a * b by {
      assert r2 <= b - 1;
      assert a * r2 <= a * (b - 1);
    }
    DivModUnique(x, a * b, q2, a * r2 + r1);
  }

  lemma MulAtLeast(a: int, d: int)
    requires a >= 1 && d > 0
    ensures a * d >= d
  {}

  /**
   * Bitwise AND of two naturals, one bit at a time from the least
   * significant end: the meaning of C's `&` on unsigned operands.
   */
  function BitAnd(x: nat, y: nat): (r: nat)
    ensures r <= x && r <= y
  {
    if x == 0 || y == 0 then 0
    else 2 * BitAnd(x / 2, y / 2) + (if x % 2 == 1 && y % 2 == 1 then 1 else 0)
  }

  lemma {:induction false} BitAndAllOnes(v: nat, n: nat)
    requires v < Pow2(n)
    ensures BitAnd(v, Pow2(n) - 1) == v
  {
    if v != 0 {
      assert n > 0;
      BitAndAllOnes(v / 2, n - 1);
      assert (Pow2(n) - 1) / 2 == Pow2(n - 1) - 1;
    }
  }

  /** An n-bit value ANDed with a mask of bits k..n-1 loses exactly its low k bits. */
  lemma BitAndHighMask(v: nat, n: nat, k: nat)
    requires k <= n && v < Pow2(n)
    ensures Pow2(k) <= Pow2(n)
    ensures BitAnd(v, Pow2(n) - Pow2(k)) == v - v % Pow2(k)
  {
    Pow2Mono(k, n);
    MaskHigh(v, Pow2(n), Pow2(k), n, k);
  }

  /** BitAndHighMask with q = 2^n and p = 2^k named, halving all three numbers at each step. */
  lemma {:induction false} MaskHigh(v: nat, q: nat, p: nat, n: nat, k: nat)
    requires k <= n && p == Pow2(k) && q == Pow2(n) && v < q
    ensures p <= q && BitAnd(v, q - p) == v - v % p
    decreases k
  {
    Pow2Mono(k, n);
    if k == 0 {
      MaskAll(v, q, p, n);
    } else if k == n {
      MaskNone(v, q, p);
    } else if v == 0 {
      DivModUnique(0, p, 0, 0);
    } else {
      MaskHigh(v / 2, Pow2(n - 1), Pow2(k - 1), n - 1, k - 1);
      MaskHighStep(v, q, p, n, k);
    }
  }

  /** The inductive step of MaskHigh, from the result for v / 2, 2^(n-1) and 2^(k-1). */
  lemma MaskHighStep(v: nat, q: nat, p: nat, n: nat, k: nat)
    requires 0 < k < n && v != 0 && p == Pow2(k) && q == Pow2(n) && p <= q
    requires Pow2(k - 1) <= Pow2(n - 1)
    requires BitAnd(v / 2, Pow2(n - 1) - Pow2(k - 1)) == v / 2 - (v / 2) % Pow2(k - 1)
    ensures BitAnd(v, q - p) == v - v % p
  {
    var p2, q2 := Pow2(k - 1), Pow2(n - 1);
    assert p == 2 * p2 && q == 2 * q2;
    ModHalve(v, p2);
    HighMaskStep(v, q - p, v % p, v / 2, q2 - p2, (v / 2) % p2);
  }

  lemma MaskAll(v: nat, q: nat, p: nat, n: nat)
    requires p == 1 && q == Pow2(n) && v < q
    ensures BitAnd(v, q - p) == v - v % p
  {
    DivModUnique(v, 1, v, 0);
    BitAndAllOnes(v, n);
  }

  lemma MaskNone(v: nat, q: nat, p: nat)
    requires p == q && v < q
    ensures BitAnd(v, q - p) == v - v % p
  {
    DivModUnique(v, p, 0, v);
  }

  /** One halving step of the AND: an even mask drops bit 0 and shifts the rest. */
  lemma HighMaskStep(v: nat, m: nat, r: nat, v2: nat, m2: nat, r2: nat)
    requires v != 0 && m == 2 * m2 && v2 == v / 2
    requires BitAnd(v2, m2) == v2 - r2 && r == 2 * r2 + v % 2
    ensures BitAnd(v, m) == v - r
  {
    if m != 0 {
      assert m / 2 == m2 && m % 2 == 0;
      assert BitAnd(v, m) == 2 * BitAnd(v2, m2);
    }
  }

  /** The remainder by an even 2p, from the remainder of v / 2 by p. */
  lemma ModHalve(v: nat, p: nat)
    requires p >= 1
    ensures v % (2 * p) == 2 * ((v / 2) % p) + v % 2
  {
    var q := (v / 2) / p;
    assert v / 2 == q * p + (v / 2) % p;
    assert v == q * (2 * p) + (2 * ((v / 2) % p) + v % 2);
    DivModUnique(v, 2 * p, q, 2 * ((v / 2) % p) + v % 2);
  }

  /** The n little-endian bytes of v, the inverse of LittleEndian. */
  function ToLittleEndian(v: nat, n: nat): (r: seq<u8>)
    ensures |r| == n
  {
    if n == 0 then [] else [v % 256] + ToLittleEndian(v / 256, n - 1)
  }

  lemma {:induction false} LittleEndianRoundTrip(v: nat, n: nat)
    requires v < Pow256(n)
    ensures LittleEndian(ToLittleEndian(v, n)) == v
  {
    if n > 0 {
      LittleEndianRoundTrip(v / 256, n - 1);
      assert ToLittleEndian(v, n)[1..] == ToLittleEndian(v / 256, n - 1);
    }
  }

  /** The index of the first v in q, or |q| when v does not occur. */
  function FirstIndex<T(==)>(q: seq<T>, v: T): (r: nat)
    ensures r <= |q|
  {
    if |q| == 0 || q[0] == v then 0 else 1 + FirstIndex(q[1..], v)
  }

  /** FirstIndex finds v, and no v occurs before it; so it is |q| exactly when v is not in q. */
  lemma {:induction false} FirstIndexIsFirst<T>(q: seq<T>, v: T)
    ensures FirstIndex(q, v) < |q| ==> q[FirstIndex(q, v)] == v
    ensures v !in q[..FirstIndex(q, v)]
  {
    if |q| > 0 && q[0] != v {
      FirstIndexIsFirst(q[1..], v);
      assert q[..FirstIndex(q, v)] == [q[0]] + q[1..][..FirstIndex(q[1..], v)];
    }
  }

  /** Without v in the first n elements FirstIndex is at least n, and it is n when q[n] is v. */
  lemma {:induction false} FirstIndexFrom<T>(q: seq<T>, v: T, n: nat)
    requires n <= |q| && forall j :: 0 <= j < n ==> q[j] != v
    ensures FirstIndex(q, v) >= n
    ensures n < |q| && q[n] == v ==> FirstIndex(q, v) == n
  {
    if n > 0 {
      FirstIndexFrom(q[1..], v, n - 1);
    }
  }
}
