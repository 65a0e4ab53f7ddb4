/**
 * The arithmetic helpers of include/sys/types.h: min/max, do_div, the
 * rounding and alignment macros, DIV_ROUND_UP and BITS_TO_LONGS, the
 * identity physical/virtual mapping and hex_byte_pack. All operands are
 * 64-bit unsigned, and wrap-around is written out where the C can wrap.
 */
module Types {
  import opened Machine

  const BITS_PER_BYTE: nat := 8
  const BITS_PER_LONG: nat := 64

  /** `min(x, y)`: `x < y ? x : y`. */
  function Min(x: int, y: int): (r: int)
    ensures r <= x && r <= y
    ensures r == x || r == y
  {
    if x < y then x else y
  }

  /** `max(x, y)`: `x > y ? x : y`. */
  function Max(x: int, y: int): (r: int)
    ensures r >= x && r >= y
    ensures r == x || r == y
  {
    if x > y then x else y
  }

  /**
   * `do_div(n, base)`: the divisor is first narrowed to 32 bits; n becomes
   * the quotient and the remainder is the macro's value.
   */
  function DoDiv(n: u64, base: u64): (r: (u64, u32))
    requires base % U32_LIMIT != 0
    ensures n == r.0 * (base % U32_LIMIT) + r.1
    ensures r.1 < base % U32_LIMIT
  {
    var b := base % U32_LIMIT;
    (n / b, n % b)
  }

  /** `roundup(x, y)`: `((x + (y - 1)) / y) * y` in 64-bit arithmetic. */
  function Roundup(x: u64, y: u64): (r: u64)
    requires y != 0
    ensures x + (y - 1) < U64_LIMIT ==> r % y == 0 && x <= r < x + y
  {
    var s := (x + (y - 1)) % U64_LIMIT;
    DivDecompose(s, y);
    MulModZero(s / y, y);
    (s / y) * y
  }

  lemma DivDecompose(s: nat, y: nat)
    requires y > 0
    ensures s == (s / y) * y + s % y && 0 <= s % y < y && (s / y) * y <= s
  {}

  lemma MulModZero(q: nat, y: nat)
    requires y > 0
    ensures (q * y) % y == 0
  {
    DivModUnique(q * y, y, q, 0);
  }

  /** `rounddown(x, y)`: `x - x % y`. */
  function Rounddown(x: u64, y: u64): (r: u64)
    requires y != 0
    ensures r % y == 0 && r <= x < r + y
  {
    DivDecompose(x, y);
    MulModZero(x / y, y);
    x - x % y
  }

  /** `DIV_ROUND_UP(n, d)`: `(n + d - 1) / d` in 64-bit arithmetic. */
  function DivRoundUp(n: u64, d: u64): (r: u64)
    requires d != 0
    ensures n + d - 1 < U64_LIMIT ==> (r - 1) * d < n <= r * d
  {
    var s := (n + d - 1) % U64_LIMIT;
    DivDecompose(s, d);
    s / d
  }

  /** `BITS_TO_LONGS(nr)`: the number of 64-bit words that hold nr bits. */
  function BitsToLongs(nr: u64): (r: u64)
    ensures nr + 63 < U64_LIMIT ==> (r - 1) * BITS_PER_LONG < nr <= r * BITS_PER_LONG
  {
    DivRoundUp(nr, BITS_PER_BYTE * 8)
  }

  /**
   * `ALIGN(x, a)`: `(x + (a - 1)) & ~(a - 1)`, with a converted to the
   * type of x (64 bits) before the subtraction.
   */
  function Align(x: u64, a: u64): u64
  {
    var mask := (a - 1) % U64_LIMIT;
    BitAnd((x + mask) % U64_LIMIT, U64_LIMIT - 1 - mask)
  }

  /** For a power of two a, ALIGN rounds x up to the next multiple of a when the sum does not wrap. */
  lemma AlignIsRoundup(x: u64, a: u64, k: nat)
    requires k < 64 && a == Pow2(k)
    requires x + a - 1 < U64_LIMIT
    ensures Align(x, a) % a == 0
    ensures x <= Align(x, a) < x + a
    ensures Align(x, a) == Roundup(x, a)
  {
    var s := x + (a - 1);
    AlignMask(x, a, k);
    DivModUnique(s, U64_LIMIT, 0, s);
    DivDecompose(s, a);
    var q := s / a;
    assert Roundup(x, a) == q * a;
    assert Align(x, a) == q * a;
  }

  lemma AlignMask(x: u64, a: u64, k: nat)
    requires k < 64 && a == Pow2(k)
    requires x + a - 1 < U64_LIMIT
    ensures Align(x, a) == (x + (a - 1)) - (x + (a - 1)) % a
  {
    Pow2Is64Bit();
    Pow2Mono(k, 64);
    var s := x + (a - 1);
    var m := (a - 1) % U64_LIMIT;
    DivModUnique(a - 1, U64_LIMIT, 0, a - 1);
    DivModUnique(x + m, U64_LIMIT, 0, s);
    var mask := U64_LIMIT - 1 - m;
    assert mask == Pow2(64) - Pow2(k);
    AlignUnfold(x, a);
    BitAndHighMask(s, 64, k);
  }

  lemma AlignUnfold(x: u64, a: u64)
    ensures var m := (a - 1) % U64_LIMIT;
      Align(x, a) == BitAnd((x + m) % U64_LIMIT, U64_LIMIT - 1 - m)
  {
  }

  /** `__va`: physical addresses are mapped to themselves. */
  function Va(pa: u64): (va: u64)
  {
    pa
  }

  /** `__pa`: the inverse of `__va`. */
  function Pa(va: u64): (pa: u64)
  {
    va
  }

  lemma VaPaInverse(x: u64)
    ensures Pa(Va(x)) == x && Va(Pa(x)) == x
  {}

  /** The digit table `hex_asc` of the kernel library (lower case). */
  const HEX_ASC: string := "0123456789abcdef"

  /** `hex_asc_hi(x)`: the digit of bits 4..7, `hex_asc[(x & 0xf0) >> 4]`. */
  function HexAscHi(b: u8): char
  {
    HEX_ASC[b / 16]
  }

  /** `hex_asc_lo(x)`: the digit of bits 0..3, `hex_asc[x & 0x0f]`. */
  function HexAscLo(b: u8): char
  {
    HEX_ASC[b % 16]
  }

  /** The nibble masks of hex_asc_hi/hex_asc_lo are the quotient and remainder by 16. */
  lemma NibbleMasks(b: bv8)
    ensures ((b & 0xf0) >> 4) as int == (b as int) / 16
    ensures (b & 0x0f) as int == (b as int) % 16
  {}

  /** The value of a lower-case hex digit, the inverse of the digit table (not `hex_to_bin`, which also rejects other characters). */
  function HexDigitValue(c: char): int
  {
    if '0' <= c <= '9' then c as int - '0' as int else c as int - 'a' as int + 10
  }

  lemma HexDigitRoundTrip(d: nat)
    requires d < 16
    ensures HexDigitValue(HEX_ASC[d]) == d
  {}

  /** The two digits hex_byte_pack writes denote the byte they were made from. */
  lemma HexBytePackRoundTrip(b: u8)
    ensures 16 * HexDigitValue(HexAscHi(b)) + HexDigitValue(HexAscLo(b)) == b
  {
    HexDigitRoundTrip(b / 16);
    HexDigitRoundTrip(b % 16);
  }

  /**
   * `hex_byte_pack(buf, byte)`: writes the high digit then the low digit
   * at buf[pos], buf[pos + 1] and returns the position after them.
   */
  method HexBytePack(buf: array<char>, pos: nat, b: u8) returns (next: nat)
    requires pos + 2 <= buf.Length
    modifies buf
    ensures next == pos + 2
    ensures buf[pos] == HexAscHi(b) && buf[pos + 1] == HexAscLo(b)
    ensures forall i :: 0 <= i < buf.Length && i != pos && i != pos + 1 ==> buf[i] == old(buf[i])
  {
    buf[pos] := HexAscHi(b);
    buf[pos + 1] := HexAscLo(b);
    next := pos + 2;
  }
}
