/**
 * Bitmaps as arrays of `unsigned long` words, addressed with the bit-string
 * convention of the x86 `bt`/`bts`/`btr` instructions: bit nr of a bitmap is
 * bit nr mod 64 of word nr / 64.  Also the single-word scans `__ffs`, `ffz`
 * and `__fls`, the rotation `ror32`, the documented searches `find_next_bit`
 * and friends, and the `for_each_*_bit` iterations over them.
 *
 * Words are naturals below 2^64 (or 2^32); bit k of a word, `|`, `&`, `<<`
 * and `>>` are spelt out by halving, so that every proof is linear.
 */
module Bitops {
  import opened Machine

  /** Bit k of v (counting from the least significant bit). */
  predicate Bit(v: nat, k: nat)
  {
    if k == 0 then v % 2 == 1 else Bit(v / 2, k - 1)
  }

  /** C's `|` on unsigned operands. */
  function BitOr(x: nat, y: nat): (r: nat)
    ensures x <= r && y <= r
  {
    if x == 0 then y
    else if y == 0 then x
    else 2 * BitOr(x / 2, y / 2) + (if x % 2 == 1 || y % 2 == 1 then 1 else 0)
  }

  /** `v >> s`. */
  function Shr(v: nat, s: nat): (r: nat)
    ensures r <= v
  {
    if s == 0 then v else Shr(v / 2, s - 1)
  }

  /** `v << s` before truncation. */
  function Shl(v: nat, s: nat): nat
    decreases s
  {
    if s == 0 then v else Shl(2 * v, s - 1)
  }

  /** The low n bits of v: its value truncated to an n-bit unsigned type. */
  function Low(v: nat, n: nat): (r: nat)
    ensures r < Pow2(n)
  {
    if n == 0 then 0 else 2 * Low(v / 2, n - 1) + v % 2
  }

  lemma {:induction false} BitZero(k: nat)
    ensures !Bit(0, k)
  {
    if k > 0 {
      BitZero(k - 1);
    }
  }

  /** The bits of x | y are the disjunctions of their bits. */
  lemma {:induction false} BitOrBit(x: nat, y: nat, k: nat)
    ensures Bit(BitOr(x, y), k) == (Bit(x, k) || Bit(y, k))
  {
    if x == 0 {
      BitZero(k);
    } else if y == 0 {
      BitZero(k);
    } else if k > 0 {
      BitOrBit(x / 2, y / 2, k - 1);
    }
  }

  /** The bits of x & y are the conjunctions of their bits. */
  lemma {:induction false} BitAndBit(x: nat, y: nat, k: nat)
    ensures Bit(BitAnd(x, y), k) == (Bit(x, k) && Bit(y, k))
  {
    if x == 0 || y == 0 {
      BitZero(k);
    } else if k > 0 {
      BitAndBit(x / 2, y / 2, k - 1);
    }
  }

  /** 2^n has bit n set and no other. */
  lemma {:induction false} Pow2Bit(n: nat, k: nat)
    ensures Bit(Pow2(n), k) == (k == n)
  {
    if n == 0 {
      if k > 0 {
        BitZero(k - 1);
      }
    } else if k > 0 {
      Pow2Bit(n - 1, k - 1);
    }
  }

  /** A value below 2^n has no bit at n or above. */
  lemma {:induction false} BitBelow(v: nat, n: nat, k: nat)
    requires v < Pow2(n) && n <= k
    ensures !Bit(v, k)
  {
    if n == 0 {
      BitZero(k);
    } else {
      BitBelow(v / 2, n - 1, k - 1);
    }
  }

  /** Two values below 2^n with the same n low bits are equal. */
  lemma {:induction false} BitsEqual(a: nat, b: nat, n: nat)
    requires a < Pow2(n) && b < Pow2(n)
    requires forall k :: 0 <= k < n ==> Bit(a, k) == Bit(b, k)
    ensures a == b
  {
    if n > 0 {
      forall k | 0 <= k < n - 1
        ensures Bit(a / 2, k) == Bit(b / 2, k)
      {
        assert Bit(a, k + 1) == Bit(b, k + 1);
      }
      BitsEqual(a / 2, b / 2, n - 1);
      assert Bit(a, 0) == Bit(b, 0);
    }
  }

  /** `~x` within n bits: the complement 2^n - 1 - x has exactly the bits x lacks. */
  lemma {:induction false} ComplementBit(x: nat, n: nat, k: nat)
    requires x < Pow2(n) && k < n
    ensures Bit(Pow2(n) - 1 - x, k) == !Bit(x, k)
  {
    var c := Pow2(n) - 1 - x;
    assert c / 2 == Pow2(n - 1) - 1 - x / 2 && c % 2 == 1 - x % 2;
    if k > 0 {
      ComplementBit(x / 2, n - 1, k - 1);
    }
  }

  /** An OR of two n-bit values is an n-bit value. */
  lemma {:induction false} BitOrBound(x: nat, y: nat, n: nat)
    requires x < Pow2(n) && y < Pow2(n)
    ensures BitOr(x, y) < Pow2(n)
  {
    if x != 0 && y != 0 {
      BitOrBound(x / 2, y / 2, n - 1);
    }
  }

  /** v >> s moves bit i + s to bit i. */
  lemma {:induction false} ShrBit(v: nat, s: nat, i: nat)
    ensures Bit(Shr(v, s), i) == Bit(v, i + s)
  {
    if s > 0 {
      ShrBit(v / 2, s - 1, i);
      assert Bit(v, i + s) == Bit(v / 2, i + s - 1);
    }
  }

  /** v << s moves bit i to bit i + s and clears the s low bits. */
  lemma {:induction false} ShlBit(v: nat, s: nat, i: nat)
    ensures Bit(Shl(v, s), i) == (s <= i && Bit(v, i - s))
    decreases s
  {
    if s > 0 {
      ShlBit(2 * v, s - 1, i);
      if s - 1 <= i {
        DoubleBit(v, i - (s - 1));
      }
    }
  }

  lemma DoubleBit(v: nat, m: nat)
    ensures Bit(2 * v, m) == (1 <= m && Bit(v, m - 1))
  {
    assert (2 * v) % 2 == 0 && (2 * v) / 2 == v;
  }

  /** Truncation to n bits keeps the bits below n and clears the rest. */
  lemma {:induction false} LowBit(v: nat, n: nat, i: nat)
    ensures Bit(Low(v, n), i) == (i < n && Bit(v, i))
  {
    if n == 0 {
      BitZero(i);
    } else {
      var r := Low(v / 2, n - 1);
      assert (2 * r + v % 2) % 2 == v % 2 && (2 * r + v % 2) / 2 == r;
      if i > 0 {
        LowBit(v / 2, n - 1, i - 1);
      }
    }
  }

  /** Low(v, n) is v mod 2^n. */
  lemma {:induction false} LowIsMod(v: nat, n: nat)
    ensures Low(v, n) == v % Pow2(n)
  {
    if n > 0 {
      LowIsMod(v / 2, n - 1);
      ModHalve(v, Pow2(n - 1));
    }
  }

  /** A 64-bit bitmap word. */
  type Word = u64

  /** `1UL << (nr & (BITS_PER_LONG-1))`. */
  function BitMask(nr: nat): (r: Word)
  {
    Pow2Mono(nr % 64, 63);
    Pow2Is64Bit();
    Pow2(nr % 64)
  }

  /** `constant_test_bit`: the mask ANDed with word `nr >> _BITOPS_LONG_SHIFT` is nonzero. */
  predicate ConstantTestBit(words: seq<Word>, nr: nat)
    requires nr < 64 * |words|
  {
    BitAnd(BitMask(nr), words[nr / 64]) != 0
  }

  /** `variable_test_bit`: `bt` reads bit nr of the bit string at addr. */
  predicate TestBit(words: seq<Word>, nr: nat)
    requires nr < 64 * |words|
  {
    Bit(words[nr / 64], nr % 64)
  }

  /** The forms `test_bit` chooses between (constant and variable nr) agree. */
  lemma TestBitForms(words: seq<Word>, nr: nat)
    requires nr < 64 * |words|
    ensures ConstantTestBit(words, nr) == TestBit(words, nr)
  {
    var k, w := nr % 64, words[nr / 64];
    var a := BitAnd(Pow2(k), w);
    BitAndBit(Pow2(k), w, k);
    Pow2Bit(k, k);
    if Bit(w, k) {
      BitZero(k);
    } else {
      forall j | 0 <= j < 64
        ensures Bit(a, j) == Bit(0, j)
      {
        BitAndBit(Pow2(k), w, j);
        Pow2Bit(k, j);
        BitZero(j);
      }
      Pow2Is64Bit();
      BitsEqual(a, 0, 64);
    }
  }

  /** The bitmap after `bts`: word nr / 64 ORed with the mask. */
  function SetWord(words: seq<Word>, nr: nat): (r: seq<Word>)
    requires nr < 64 * |words|
    ensures |r| == |words|
  {
    Pow2Is64Bit();
    BitOrBound(words[nr / 64], BitMask(nr), 64);
    words[nr / 64 := BitOr(words[nr / 64], BitMask(nr))]
  }

  /** `~(1UL << k)` as a 64-bit word. */
  function NotMask(nr: nat): (r: Word)
  {
    U64_LIMIT - 1 - BitMask(nr)
  }

  /** The bitmap after `btr`: word nr / 64 ANDed with the complement of the mask. */
  function ClearWord(words: seq<Word>, nr: nat): (r: seq<Word>)
    requires nr < 64 * |words|
    ensures |r| == |words|
  {
    words[nr / 64 := BitAnd(words[nr / 64], NotMask(nr))]
  }

  /** `set_bit` sets exactly bit nr: bit j of the result is set iff j is nr or it was set before. */
  lemma SetWordBits(words: seq<Word>, nr: nat, j: nat)
    requires nr < 64 * |words| && j < 64 * |words|
    ensures TestBit(SetWord(words, nr), j) == (j == nr || TestBit(words, j))
  {
    if j / 64 == nr / 64 {
      BitOrBit(words[nr / 64], BitMask(nr), j % 64);
      Pow2Bit(nr % 64, j % 64);
    }
  }

  /** `clear_bit` clears exactly bit nr: bit j of the result is set iff j is not nr and it was set before. */
  lemma ClearWordBits(words: seq<Word>, nr: nat, j: nat)
    requires nr < 64 * |words| && j < 64 * |words|
    ensures TestBit(ClearWord(words, nr), j) == (j != nr && TestBit(words, j))
  {
    if j / 64 == nr / 64 {
      BitAndBit(words[nr / 64], NotMask(nr), j % 64);
      Pow2Is64Bit();
      ComplementBit(BitMask(nr), 64, j % 64);
      Pow2Bit(nr % 64, j % 64);
    }
  }

  /** `set_bit(nr, addr)`. */
  method SetBit(nr: nat, addr: array<Word>)
    requires nr < 64 * addr.Length
    modifies addr
    ensures addr[..] == SetWord(old(addr[..]), nr)
  {
    Pow2Is64Bit();
    BitOrBound(addr[nr / 64], BitMask(nr), 64);
    addr[nr / 64] := BitOr(addr[nr / 64], BitMask(nr));
  }

  /** `clear_bit(nr, addr)`. */
  method ClearBit(nr: nat, addr: array<Word>)
    requires nr < 64 * addr.Length
    modifies addr
    ensures addr[..] == ClearWord(old(addr[..]), nr)
  {
    addr[nr / 64] := BitAnd(addr[nr / 64], NotMask(nr));
  }

  /** test_bit is true after set_bit and false after clear_bit. */
  lemma TestAfterSetClear(words: seq<Word>, nr: nat)
    requires nr < 64 * |words|
    ensures TestBit(SetWord(words, nr), nr) && !TestBit(ClearWord(words, nr), nr)
  {
    SetWordBits(words, nr, nr);
    ClearWordBits(words, nr, nr);
  }

  /** The lowest set bit of a nonzero value. */
  function Lowest(v: nat): (r: nat)
    requires v != 0
    ensures Bit(v, r) && forall j :: 0 <= j < r ==> !Bit(v, j)
    decreases v
  {
    if v % 2 == 1 then 0 else 1 + Lowest(v / 2)
  }

  /** The highest set bit of a nonzero value. */
  function Highest(v: nat): (r: nat)
    requires v != 0
    ensures Bit(v, r) && forall j :: r < j ==> !Bit(v, j)
    decreases v
  {
    if v == 1 then
      assert forall j :: 0 < j ==> !Bit(v, j) by {
        forall j | 0 < j
          ensures !Bit(v, j)
        {
          BitZero(j - 1);
        }
      }
      0
    else 1 + Highest(v / 2)
  }

  /** `__ffs` (`bsf`): the index of the lowest set bit; undefined for 0. */
  function Ffs(word: Word): (r: nat)
    requires word != 0
    ensures r < 64 && Bit(word, r)
    ensures forall j :: 0 <= j < r ==> !Bit(word, j)
  {
    var r := Lowest(word);
    assert r < 64 by {
      Pow2Is64Bit();
      if r >= 64 {
        BitBelow(word, 64, r);
      }
    }
    r
  }

  /** `ffz` (`bsf` of ~word): the index of the lowest clear bit; undefined for ~0. */
  function Ffz(word: Word): (r: nat)
    requires word != U64_LIMIT - 1
    ensures r < 64 && !Bit(word, r)
    ensures forall j :: 0 <= j < r ==> Bit(word, j)
  {
    var r := Ffs(U64_LIMIT - 1 - word);
    Pow2Is64Bit();
    ComplementBit(word, 64, r);
    assert forall j :: 0 <= j < r ==> Bit(word, j) by {
      forall j | 0 <= j < r
        ensures Bit(word, j)
      {
        ComplementBit(word, 64, j);
      }
    }
    r
  }

  /** `__fls` (`bsr`): the index of the highest set bit; undefined for 0. */
  function Fls(word: Word): (r: nat)
    requires word != 0
    ensures r < 64 && Bit(word, r)
    ensures forall j :: r < j < 64 ==> !Bit(word, j)
  {
    var r := Highest(word);
    assert r < 64 by {
      Pow2Is64Bit();
      if r >= 64 {
        BitBelow(word, 64, r);
      }
    }
    r
  }

  /**
   * `ror32(word, shift)`: `(word >> shift) | (word << (32 - shift))` on
   * `uint32_t`.  A shift of 0 would shift left by 32, which C leaves
   * undefined.
   */
  function Ror32(word: u32, shift: nat): (r: u32)
    requires 0 < shift < 32
  {
    RorFits(word, shift);
    BitOr(Shr(word, shift), Low(Shl(word, 32 - shift), 32))
  }

  /** The two halves of the rotation are 32-bit values, so their OR is one. */
  lemma RorFits(word: u32, shift: nat)
    requires shift < 32
    ensures BitOr(Shr(word, shift), Low(Shl(word, 32 - shift), 32)) < U32_LIMIT
  {
    Pow2Is64Bit();
    BitOrBound(Shr(word, shift), Low(Shl(word, 32 - shift), 32), 32);
  }

  lemma RorUnfold(word: u32, shift: nat)
    requires 0 < shift < 32
    ensures Ror32(word, shift) == BitOr(Shr(word, shift), Low(Shl(word, 32 - shift), 32))
  {}

  /** Bit i of ror32(w, s) is bit (i + s) mod 32 of w. */
  lemma Ror32Bit(word: u32, shift: nat, i: nat)
    requires 0 < shift < 32 && i < 32
    ensures Bit(Ror32(word, shift), i) == Bit(word, if i + shift < 32 then i + shift else i - (32 - shift))
  {
    RorUnfold(word, shift);
    if i + shift < 32 {
      RorBitLow(word, shift, i);
    } else {
      RorBitHigh(word, shift, i);
    }
  }

  /** The bits of ror32 below 32 - shift come from word >> shift. */
  lemma RorBitLow(word: u32, shift: nat, i: nat)
    requires 0 < shift < 32 && i + shift < 32
    ensures Bit(BitOr(Shr(word, shift), Low(Shl(word, 32 - shift), 32)), i) == Bit(word, i + shift)
  {
    BitOrBit(Shr(word, shift), Low(Shl(word, 32 - shift), 32), i);
    ShrBit(word, shift, i);
    LowShlBit(word, 32 - shift, i);
  }

  /** The bits of ror32 from 32 - shift up come from word << (32 - shift). */
  lemma RorBitHigh(word: u32, shift: nat, i: nat)
    requires 0 < shift < 32 && 32 <= i + shift && i < 32
    ensures Bit(BitOr(Shr(word, shift), Low(Shl(word, 32 - shift), 32)), i) == Bit(word, i - (32 - shift))
  {
    BitOrBit(Shr(word, shift), Low(Shl(word, 32 - shift), 32), i);
    ShrHigh(word, shift, i);
    LowShlBit(word, 32 - shift, i);
  }

  /** A 32-bit word shifted right by s has no bit at 32 - s or above. */
  lemma ShrHigh(word: u32, s: nat, i: nat)
    requires 32 <= i + s
    ensures !Bit(Shr(word, s), i)
  {
    ShrBit(word, s, i);
    U32Bits(word, i + s);
  }

  /** A 32-bit word has no bit at 32 or above. */
  lemma U32Bits(word: u32, k: nat)
    requires 32 <= k
    ensures !Bit(word, k)
  {
    Pow2Is64Bit();
    BitBelow(word, 32, k);
  }

  /** Bit i of `(uint32_t)(v << t)`. */
  lemma LowShlBit(v: nat, t: nat, i: nat)
    requires i < 32
    ensures Bit(Low(Shl(v, t), 32), i) == (t <= i && Bit(v, i - t))
  {
    LowBit(Shl(v, t), 32, i);
    ShlBit(v, t, i);
  }

  /** Rotating right by s and then by 32 - s gives the word back. */
  lemma Ror32Inverse(word: u32, s: nat)
    requires 0 < s < 32
    ensures Ror32(Ror32(word, s), 32 - s) == word
  {
    var r := Ror32(word, s);
    forall i | 0 <= i < 32
      ensures Bit(Ror32(r, 32 - s), i) == Bit(word, i)
    {
      var j := if i < s then i + (32 - s) else i - s;
      Ror32Bit(r, 32 - s, i);
      Ror32Bit(word, s, j);
    }
    Pow2Is64Bit();
    BitsEqual(Ror32(r, 32 - s), word, 32);
  }

  /** The bitmap as the sequence of its bits: entry nr is test_bit(nr). */
  function View(words: seq<Word>): (r: seq<bool>)
    ensures |r| == 64 * |words|
    ensures forall nr :: 0 <= nr < |r| ==> r[nr] == TestBit(words, nr)
  {
    seq(64 * |words|, nr requires 0 <= nr < 64 * |words| => TestBit(words, nr))
  }

  /** set_bit and clear_bit change exactly one entry of the view. */
  lemma ViewAfterSetClear(words: seq<Word>, nr: nat)
    requires nr < 64 * |words|
    ensures View(SetWord(words, nr)) == View(words)[nr := true]
    ensures View(ClearWord(words, nr)) == View(words)[nr := false]
  {
    forall j | 0 <= j < 64 * |words|
      ensures View(SetWord(words, nr))[j] == View(words)[nr := true][j]
      ensures View(ClearWord(words, nr))[j] == View(words)[nr := false][j]
    {
      SetWordBits(words, nr, j);
      ClearWordBits(words, nr, j);
    }
  }

  /**
   * The documented result of `find_next_bit` (want = true) and
   * `find_next_zero_bit` (want = false) on a bitmap viewed as its bits: the
   * first bit number in [offset, size) whose bit is want, or size when there
   * is none.
   */
  function FindNext(bits: seq<bool>, size: nat, offset: nat, want: bool): (r: nat)
    requires size <= |bits|
    ensures r <= size && (r < size ==> offset <= r && bits[r] == want)
    ensures forall j :: offset <= j < r ==> bits[j] != want
    decreases size - offset
  {
    if offset >= size then size
    else if bits[offset] == want then offset
    else FindNext(bits, size, offset + 1, want)
  }

  /** `find_next_bit(addr, size, offset)`. */
  function FindNextBit(words: seq<Word>, size: nat, offset: nat): (r: nat)
    requires size <= 64 * |words|
    ensures r <= size && (r < size ==> offset <= r && TestBit(words, r))
    ensures forall j :: offset <= j < r ==> !TestBit(words, j)
  {
    FindNext(View(words), size, offset, true)
  }

  /** `find_next_zero_bit(addr, size, offset)`. */
  function FindNextZeroBit(words: seq<Word>, size: nat, offset: nat): (r: nat)
    requires size <= 64 * |words|
    ensures r <= size && (r < size ==> offset <= r && !TestBit(words, r))
    ensures forall j :: offset <= j < r ==> TestBit(words, j)
  {
    FindNext(View(words), size, offset, false)
  }

  /** `find_first_bit(addr, size)`: the next-bit search from bit 0. */
  function FindFirstBit(words: seq<Word>, size: nat): (r: nat)
    requires size <= 64 * |words|
    ensures r <= size && (r < size ==> TestBit(words, r))
    ensures forall j :: 0 <= j < r ==> !TestBit(words, j)
  {
    FindNextBit(words, size, 0)
  }

  /** `find_first_zero_bit(addr, size)`: the next-zero-bit search from bit 0. */
  function FindFirstZeroBit(words: seq<Word>, size: nat): (r: nat)
    requires size <= 64 * |words|
    ensures r <= size && (r < size ==> !TestBit(words, r))
    ensures forall j :: 0 <= j < r ==> TestBit(words, j)
  {
    FindNextZeroBit(words, size, 0)
  }

  /**
   * The bit numbers a `for_each_set_bit_from` (want = true) or
   * `for_each_clear_bit_from` (want = false) loop visits, in order, when its
   * body leaves the bitmap alone: the search from bit, then the search from
   * the previous bit + 1, while below size.
   */
  function Visits(bits: seq<bool>, size: nat, bit: nat, want: bool): seq<nat>
    requires size <= |bits|
    decreases size - bit
  {
    var b := FindNext(bits, size, bit, want);
    if b < size then [b] + Visits(bits, size, b + 1, want) else []
  }

  /**
   * The loop visits every bit number in [bit, size) whose bit is want, and
   * no other, in strictly ascending order (so each once).
   */
  lemma VisitsExactly(bits: seq<bool>, size: nat, bit: nat, want: bool)
    requires size <= |bits|
    ensures forall x: nat :: x in Visits(bits, size, bit, want) <==> bit <= x < size && bits[x] == want
    ensures forall i, j :: 0 <= i < j < |Visits(bits, size, bit, want)| ==>
      Visits(bits, size, bit, want)[i] < Visits(bits, size, bit, want)[j]
  {
    forall x: nat
      ensures x in Visits(bits, size, bit, want) <==> bit <= x < size && bits[x] == want
    {
      VisitsMember(bits, size, bit, want, x);
    }
    VisitsAscending(bits, size, bit, want);
  }

  /** x is visited iff it is in [bit, size) and its bit is want. */
  lemma {:induction false} VisitsMember(bits: seq<bool>, size: nat, bit: nat, want: bool, x: nat)
    requires size <= |bits|
    ensures x in Visits(bits, size, bit, want) <==> bit <= x < size && bits[x] == want
    decreases size - bit
  {
    var b := FindNext(bits, size, bit, want);
    if b < size {
      VisitsMember(bits, size, b + 1, want, x);
      assert Visits(bits, size, bit, want) == [b] + Visits(bits, size, b + 1, want);
    }
  }

  /** Every visit is at least bit. */
  lemma {:induction false} VisitsAbove(bits: seq<bool>, size: nat, bit: nat, want: bool, k: nat)
    requires size <= |bits| && k < |Visits(bits, size, bit, want)|
    ensures bit <= Visits(bits, size, bit, want)[k]
    decreases size - bit
  {
    var b := FindNext(bits, size, bit, want);
    if k > 0 {
      VisitsAbove(bits, size, b + 1, want, k - 1);
    }
  }

  lemma {:induction false} VisitsAscending(bits: seq<bool>, size: nat, bit: nat, want: bool)
    requires size <= |bits|
    ensures forall i, j :: 0 <= i < j < |Visits(bits, size, bit, want)| ==>
      Visits(bits, size, bit, want)[i] < Visits(bits, size, bit, want)[j]
    decreases size - bit
  {
    var b := FindNext(bits, size, bit, want);
    if b < size {
      VisitsAscending(bits, size, b + 1, want);
      var rest := Visits(bits, size, b + 1, want);
      var all := [b] + rest;
      assert Visits(bits, size, bit, want) == all;
      forall i, j | 0 <= i < j < |all|
        ensures all[i] < all[j]
      {
        if i == 0 {
          VisitsAbove(bits, size, b + 1, want, j - 1);
        }
      }
    }
  }

  /** `for_each_set_bit` and `for_each_clear_bit` are the loops from bit 0, starting at find_first_bit / find_first_zero_bit. */
  lemma ForEachFromZero(words: seq<Word>, size: nat, want: bool)
    requires size <= 64 * |words|
    ensures var v := Visits(View(words), size, 0, want);
      var first := if want then FindFirstBit(words, size) else FindFirstZeroBit(words, size);
      (|v| == 0 <==> first == size) && (|v| > 0 ==> v[0] == first)
  {}
}
