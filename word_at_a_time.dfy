/**
 * The zero-byte detection used by `strscpy` to copy a machine word at a
 * time: arithmetic on one 64-bit word loaded little-endian from 8 bytes,
 * byte 0 being its least significant byte.
 */
module WordAtATime {
  import opened Machine

  /** `REPEAT_BYTE(x)`: the byte x in every byte of a word, as `(~0ul / 0xff) * x`. */
  function RepeatByte(x: bv64): bv64
  {
    (!0 / 0xff) * x
  }

  /** The two members of `WORD_AT_A_TIME_CONSTANTS`, `REPEAT_BYTE(0x01)` and `REPEAT_BYTE(0x80)`. */
  const ONE_BITS: bv64 := 0x0101_0101_0101_0101
  const HIGH_BITS: bv64 := 0x8080_8080_8080_8080

  lemma ConstantValues()
    ensures RepeatByte(0x01) == ONE_BITS && RepeatByte(0x80) == HIGH_BITS
  {}

  /** `has_zero`: the mask it returns (and stores through `bits`). */
  function HasZero(a: bv64): bv64
  {
    ((a - ONE_BITS) & !a) & HIGH_BITS
  }

  /** `prep_zero_mask` on little-endian machines returns the has_zero mask unchanged. */
  function PrepZeroMask(a: bv64, bits: bv64): bv64
  {
    bits
  }

  /** `create_zero_mask`: the bits below the lowest set bit of `bits`, shifted right by 7. */
  function CreateZeroMask(bits: bv64): bv64
  {
    ((bits - 1) & !bits) >> 7
  }

  /** `count_masked_bytes`: the top byte of a multiply by 0x0001020304050608. */
  function CountMaskedBytes(mask: bv64): bv64
  {
    (mask * 0x0001_0203_0405_0608) >> 56
  }

  /** `find_zero` is count_masked_bytes of the zero mask. */
  function FindZero(mask: bv64): bv64
  {
    CountMaskedBytes(mask)
  }

  /** `zero_bytemask`: the zero mask is already a byte mask. */
  function ZeroBytemask(mask: bv64): bv64
  {
    mask
  }

  /** The word a little-endian `unsigned long` load reads from 8 bytes. */
  function WordOf(b: seq<bv8>): bv64
    requires |b| == 8
  {
    (b[0] as bv64) | (b[1] as bv64 << 8) | (b[2] as bv64 << 16) | (b[3] as bv64 << 24)
    | (b[4] as bv64 << 32) | (b[5] as bv64 << 40) | (b[6] as bv64 << 48) | (b[7] as bv64 << 56)
  }

  /** The 8 bytes a little-endian `unsigned long` store of w writes. */
  function BytesOf(w: bv64): (r: seq<bv8>)
    ensures |r| == 8
  {
    [(w & 0xff) as bv8, ((w >> 8) & 0xff) as bv8, ((w >> 16) & 0xff) as bv8, ((w >> 24) & 0xff) as bv8,
     ((w >> 32) & 0xff) as bv8, ((w >> 40) & 0xff) as bv8, ((w >> 48) & 0xff) as bv8, (w >> 56) as bv8]
  }

  /** Storing a loaded word writes back the bytes it was loaded from. */
  lemma LoadStore(b: seq<bv8>)
    requires |b| == 8
    ensures BytesOf(WordOf(b)) == b
  {
    assert b == [b[0], b[1], b[2], b[3], b[4], b[5], b[6], b[7]];
  }

  /** n zero bytes. */
  function ZeroBytes(n: nat): (r: seq<bv8>)
    ensures |r| == n && forall j :: 0 <= j < n ==> r[j] == 0
  {
    seq(n, _ => 0)
  }

  /** The byte mask with the k low bytes 0xff and the others 0x00. */
  function LowBytes(k: nat): bv64
    requires k < 8
  {
    if k == 0 then 0 else if k == 1 then 0xff else if k == 2 then 0xffff else if k == 3 then 0xff_ffff
    else if k == 4 then 0xffff_ffff else if k == 5 then 0xff_ffff_ffff else if k == 6 then 0xffff_ffff_ffff
    else 0xff_ffff_ffff_ffff
  }

  /** has_zero of a word with no zero byte is 0. */
  lemma NoZeroByte(b: seq<bv8>)
    requires |b| == 8 && 0 !in b
    ensures HasZero(WordOf(b)) == 0
  {
    assert b[0] != 0 && b[1] != 0 && b[2] != 0 && b[3] != 0;
    assert b[4] != 0 && b[5] != 0 && b[6] != 0 && b[7] != 0;
  }

  /**
   * has_zero of a word whose lowest zero byte is byte k is nonzero, and
   * create_zero_mask of it has the k low bytes 0xff.
   */
  lemma ZeroByteAt(b: seq<bv8>, k: nat)
    requires |b| == 8 && k < 8 && b[k] == 0
    requires forall j :: 0 <= j < k ==> b[j] != 0
    ensures HasZero(WordOf(b)) != 0 && CreateZeroMask(HasZero(WordOf(b))) == LowBytes(k)
  {}

  /**
   * has_zero is nonzero exactly when some loaded byte is zero; then
   * create_zero_mask of it has one 0xff byte for every byte below the first
   * zero byte.
   */
  lemma HasZeroMask(b: seq<bv8>)
    requires |b| == 8
    ensures (HasZero(WordOf(b)) != 0) == (FirstIndex(b, 0) < 8)
    ensures FirstIndex(b, 0) < 8 ==> CreateZeroMask(HasZero(WordOf(b))) == LowBytes(FirstIndex(b, 0))
  {
    var k := FirstIndex(b, 0);
    FirstIndexIsFirst(b, 0);
    if k == 8 {
      NoZeroByte(b);
    } else {
      forall j | 0 <= j < k
        ensures b[j] != 0
      {
        assert b[j] in b[..k];
      }
      ZeroByteAt(b, k);
    }
  }

  /** find_zero of a mask with k low 0xff bytes is k. */
  lemma FindZeroCounts(k: nat)
    requires k < 8
    ensures FindZero(LowBytes(k)) as int == k
  {
    if k == 0 {
    } else if k == 1 {
    } else if k == 2 {
    } else if k == 3 {
    } else if k == 4 {
    } else if k == 5 {
    } else if k == 6 {
    } else {
    }
  }

  /**
   * Storing `c & zero_bytemask(LowBytes(k))` writes the first k loaded bytes
   * unchanged and zeroes the other 8 - k.
   */
  lemma MaskedStore(b: seq<bv8>, k: nat)
    requires |b| == 8 && k < 8
    ensures BytesOf(WordOf(b) & ZeroBytemask(LowBytes(k))) == b[..k] + ZeroBytes(8 - k)
  {
    var m := seq(8, j requires 0 <= j < 8 => if j < k then 0xff as bv8 else 0);
    var z := seq(8, j requires 0 <= j < 8 => b[j] & m[j]);
    LowBytesWord(k, m);
    AndWord(b, m, z);
    LoadStore(z);
    KeepLow(b, k, m, z);
  }

  /** ANDing bytes with k bytes 0xff and then 0x00 bytes keeps the first k bytes and zeroes the rest. */
  lemma KeepLow(b: seq<bv8>, k: nat, m: seq<bv8>, z: seq<bv8>)
    requires |b| == 8 && k < 8 && |m| == 8 && |z| == 8
    requires forall j :: 0 <= j < 8 ==> m[j] == if j < k then 0xff else 0
    requires forall j :: 0 <= j < 8 ==> z[j] == b[j] & m[j]
    ensures z == b[..k] + ZeroBytes(8 - k)
  {
    var r := b[..k] + ZeroBytes(8 - k);
    forall j | 0 <= j < 8
      ensures z[j] == r[j]
    {
      if j < k {
        assert z[j] == b[j] & 0xff;
      } else {
        assert z[j] == b[j] & 0;
      }
    }
  }

  /** LowBytes(k) is the word of k bytes 0xff followed by zero bytes. */
  lemma LowBytesWord(k: nat, m: seq<bv8>)
    requires k < 8 && |m| == 8
    requires forall j :: 0 <= j < 8 ==> m[j] == if j < k then 0xff else 0
    ensures LowBytes(k) == WordOf(m)
  {
    if k == 0 {
      assert m == [0, 0, 0, 0, 0, 0, 0, 0];
    } else if k == 1 {
      assert m == [0xff, 0, 0, 0, 0, 0, 0, 0];
    } else if k == 2 {
      assert m == [0xff, 0xff, 0, 0, 0, 0, 0, 0];
    } else if k == 3 {
      assert m == [0xff, 0xff, 0xff, 0, 0, 0, 0, 0];
    } else if k == 4 {
      assert m == [0xff, 0xff, 0xff, 0xff, 0, 0, 0, 0];
    } else if k == 5 {
      assert m == [0xff, 0xff, 0xff, 0xff, 0xff, 0, 0, 0];
    } else if k == 6 {
      assert m == [0xff, 0xff, 0xff, 0xff, 0xff, 0xff, 0, 0];
    } else {
      assert m == [0xff, 0xff, 0xff, 0xff, 0xff, 0xff, 0xff, 0];
    }
  }

  /** The AND of two loaded words is the word of the bytewise AND. */
  lemma AndWord(a: seq<bv8>, b: seq<bv8>, c: seq<bv8>)
    requires |a| == 8 && |b| == 8 && |c| == 8
    requires forall j :: 0 <= j < 8 ==> c[j] == a[j] & b[j]
    ensures WordOf(a) & WordOf(b) == WordOf(c)
  {}

  /**
   * What strscpy's word loop needs from one loaded word: has_zero is 0
   * only when no byte is NUL; otherwise z, the index of the first NUL, has
   * no NUL before it, the zero mask prepared and created from has_zero is
   * LowBytes(z), and find_zero of it is z.
   */
  lemma FirstZeroByte(b: seq<bv8>)
    requires |b| == 8
    ensures HasZero(WordOf(b)) == 0 ==> 0 !in b
    ensures HasZero(WordOf(b)) != 0 ==>
      var z := FirstIndex(b, 0);
      z < 8 && b[z] == 0 && (forall j :: 0 <= j < z ==> b[j] != 0) &&
      CreateZeroMask(PrepZeroMask(WordOf(b), HasZero(WordOf(b)))) == LowBytes(z) &&
      FindZero(LowBytes(z)) as int == z
  {
    HasZeroMask(b);
    FirstIndexIsFirst(b, 0);
    var z := FirstIndex(b, 0);
    if z < 8 {
      FindZeroCounts(z);
      assert forall j :: 0 <= j < z ==> b[j] == b[..z][j];
    }
  }
}
