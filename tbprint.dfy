/**
 * ACPICA's table checksum and header clean-up (`tbprint.c`): the 8-bit
 * circular checksum of a table, the checksum verdict with its FACS/S3PT
 * exemption, and the repair of the ASCII name fields of a table header
 * before printing.
 */
module TbPrint {
  import opened Machine
  import opened AcTypes

  // ---------------------------------------------------------------------
  // Checksums

  /** The sum of a byte string, as an unbounded integer. */
  function Sum(b: seq<u8>): nat
  {
    if |b| == 0 then 0 else Sum(b[..|b| - 1]) + b[|b| - 1]
  }

  /** The 8-bit circular checksum of the n bytes of memory at a. */
  function Checksum(mem: seq<u8>, a: nat, n: nat): u8
  {
    Sum(Bytes(mem, a, n)) % 256
  }

  lemma SumAppend(b: seq<u8>, x: u8)
    ensures Sum(b + [x]) == Sum(b) + x
  {
    assert (b + [x])[..|b|] == b;
  }

  /** Adding to a sum kept modulo 256 is adding to the sum. */
  lemma ModAdd(s: nat, x: nat)
    ensures (s % 256 + x) % 256 == (s + x) % 256
  {
    var q := s / 256;
    assert s == 256 * q + s % 256;
    DivModUnique(s + x, 256, q + (s % 256 + x) / 256, (s % 256 + x) % 256);
  }

  /**
   * `acpi_tb_checksum`: the byte sum of the length bytes at buffer, modulo
   * 256, accumulated in a `uint8_t`; 0 for an empty buffer.
   */
  method TbChecksum(mem: seq<u8>, buffer: nat, length: u32) returns (sum: u8)
    ensures sum == Checksum(mem, buffer, length)
  {
    sum := 0;
    var p := buffer;
    var end := buffer + length;
    while p < end
      invariant buffer <= p <= end
      invariant sum == Checksum(mem, buffer, p - buffer)
    {
      ChecksumStep(mem, buffer, p - buffer);
      sum := (sum + Peek(mem, p)) % 256;
      p := p + 1;
    }
  }

  /** One more byte: the checksum of k + 1 bytes adds byte k to the checksum of the first k. */
  lemma ChecksumStep(mem: seq<u8>, buffer: nat, k: nat)
    ensures Checksum(mem, buffer, k + 1) == (Checksum(mem, buffer, k) + Peek(mem, buffer + k)) % 256
  {
    SumAppend(Bytes(mem, buffer, k), Peek(mem, buffer + k));
    ModAdd(Sum(Bytes(mem, buffer, k)), Peek(mem, buffer + k));
  }

  /** FACS and S3PT have no standard header and no checksum. */
  predicate IsOddTable(signature: seq<u8>)
  {
    CompareName(signature, SIG_S3PT) || CompareName(signature, SIG_FACS)
  }

  /** The table at t passes `acpi_tb_verify_checksum` over n bytes. */
  predicate ChecksumValid(mem: seq<u8>, t: nat, n: nat)
  {
    IsOddTable(Bytes(mem, t, 4)) || Checksum(mem, t, n) == 0
  }

  /**
   * `acpi_tb_verify_checksum`: AE_OK for a FACS or S3PT whatever its bytes;
   * otherwise AE_OK exactly when the length bytes sum to 0 modulo 256, and
   * AE_BAD_CHECKSUM when they do not.
   */
  method VerifyChecksum(mem: seq<u8>, table: nat, length: u32) returns (status: Status)
    ensures status == AE_OK || status == AE_BAD_CHECKSUM
    ensures status == AE_OK <==> ChecksumValid(mem, table, length)
    ensures IsOddTable(Bytes(mem, table, 4)) ==> status == AE_OK
  {
    var signature := Bytes(mem, table, 4);
    if CompareName(signature, SIG_S3PT) || CompareName(signature, SIG_FACS) {
      return AE_OK;
    }
    var checksum := TbChecksum(mem, table, length);
    if checksum != 0 {
      return AE_BAD_CHECKSUM;
    }
    return AE_OK;
  }

  /** Replacing byte k of b by v changes the sum by v - b[k]. */
  lemma {:induction false} SumUpdate(b: seq<u8>, k: nat, v: u8)
    requires k < |b|
    ensures Sum(b[k := v]) + b[k] == Sum(b) + v
  {
    var n := |b| - 1;
    assert b[k := v][..n] == if k < n then b[..n][k := v] else b[..n];
    if k < n {
      SumUpdate(b[..n], k, v);
    }
  }

  /**
   * Memory with the checksum byte at offset k of the n-byte table at t
   * replaced by `(uint8_t)(checksum - sum)`, the value the error path of
   * acpi_tb_verify_checksum prints as "should be".
   */
  function Repaired(mem: seq<u8>, t: nat, n: nat, k: nat): (r: seq<u8>)
    requires t + k < |mem|
    ensures |r| == |mem|
  {
    var v: u8 := (mem[t + k] as int - Checksum(mem, t, n) as int) % 256;
    mem[t + k := v]
  }

  /** Storing the "should be" value makes the table's checksum 0. */
  lemma ChecksumRepair(mem: seq<u8>, t: nat, n: nat, k: nat)
    requires k < n && t + n <= |mem|
    ensures Checksum(Repaired(mem, t, n, k), t, n) == 0
  {
    var c := Checksum(mem, t, n);
    var v: u8 := (mem[t + k] as int - c as int) % 256;
    var b := Bytes(mem, t, n);
    BytesUpdate(mem, t, n, k, v);
    SumUpdate(b, k, v);
    SumUpdate(b, k, 0);
    ModRepair(Sum(b), b[k], c, v);
  }

  /** Writing byte t + k of memory writes byte k of the n bytes at t. */
  lemma BytesUpdate(mem: seq<u8>, t: nat, n: nat, k: nat, v: u8)
    requires k < n && t + n <= |mem|
    ensures Bytes(mem[t + k := v], t, n) == Bytes(mem, t, n)[k := v]
    ensures Bytes(mem, t, n)[k] == mem[t + k]
  {
    var a, b := Bytes(mem[t + k := v], t, n), Bytes(mem, t, n)[k := v];
    forall i | 0 <= i < n
      ensures a[i] == b[i]
    {
    }
  }

  /** Arithmetic of ChecksumRepair: s - x + ((x - s mod 256) mod 256) is a multiple of 256. */
  lemma ModRepair(s: nat, x: nat, c: nat, v: nat)
    requires c == s % 256 && v == (x as int - c as int) % 256 && x <= s
    ensures (s - x + v) % 256 == 0
  {
    var q := s / 256;
    var w := (x - c) / 256;
    assert x - c == 256 * w + v;
    DivModUnique(s - x + v, 256, q - w, 0);
  }

  // ---------------------------------------------------------------------
  // Name strings

  /** `isprint` in the C locale: the ASCII characters from space to '~'. */
  predicate IsPrint(c: u8)
  {
    0x20 <= c <= 0x7e
  }

  const QUESTION_MARK: u8 := 0x3f

  /** One byte as acpi_tb_fix_string leaves it: printable bytes unchanged, others '?'. */
  function FixByte(c: u8): u8
  {
    if IsPrint(c) then c else QUESTION_MARK
  }

  /**
   * What `acpi_tb_fix_string` makes of the length bytes b of a name field:
   * it stops at the first NUL, and repairs every byte before it.
   */
  function FixString(b: seq<u8>): (r: seq<u8>)
    ensures |r| == |b|
  {
    if |b| == 0 || b[0] == 0 then b else [FixByte(b[0])] + FixString(b[1..])
  }

  /**
   * Byte by byte: a byte before the first NUL becomes '?' when it is not
   * printable; the NUL and everything after it are unchanged.
   */
  lemma {:induction false} FixStringAt(b: seq<u8>, k: nat)
    requires k < |b|
    ensures FixString(b)[k] == if k < FirstIndex(b, 0) then FixByte(b[k]) else b[k]
  {
    if b[0] != 0 && k > 0 {
      FixStringAt(b[1..], k - 1);
    }
  }

  /** acpi_tb_fix_string puts no NUL where there was none, so its first NUL stays where it was. */
  lemma {:induction false} FixStringNul(b: seq<u8>)
    ensures FirstIndex(FixString(b), 0) == FirstIndex(b, 0)
  {
    if |b| > 0 && b[0] != 0 {
      FixStringNul(b[1..]);
    }
  }

  /** After acpi_tb_fix_string every byte before the first NUL is printable. */
  lemma FixStringPrintable(b: seq<u8>, k: nat)
    requires k < FirstIndex(FixString(b), 0)
    ensures IsPrint(FixString(b)[k])
  {
    FixStringNul(b);
    FixStringAt(b, k);
  }

  /** Repairing a repaired string changes nothing. */
  lemma {:induction false} FixStringIdempotent(b: seq<u8>)
    ensures FixString(FixString(b)) == FixString(b)
  {
    if |b| > 0 && b[0] != 0 {
      FixStringIdempotent(b[1..]);
      assert FixString(b)[1..] == FixString(b[1..]);
    }
  }

  /** s with the length bytes from `at` on repaired. */
  function FixField(s: seq<u8>, at: nat, length: nat): (r: seq<u8>)
    requires at + length <= |s|
    ensures |r| == |s|
  {
    s[..at] + FixString(s[at..at + length]) + s[at + length..]
  }

  /**
   * `acpi_tb_fix_string(string, length)` on the bytes from `at` on: walks
   * while length is nonzero and the byte is not NUL, writing '?' over every
   * non-printable byte.
   */
  method FixStringIn(s: array<u8>, at: nat, length: nat)
    requires at + length <= s.Length
    modifies s
    ensures s[..] == FixField(old(s[..]), at, length)
  {
    ghost var s0 := s[..];
    var p := at;
    var n := length;
    while n > 0 && s[p] != 0
      invariant at <= p && p + n == at + length
      invariant forall k :: at <= k < p ==> s0[k] != 0 && s[k] == FixByte(s0[k])
      invariant forall k :: 0 <= k < s.Length && !(at <= k < p) ==> s[k] == s0[k]
    {
      if !IsPrint(s[p]) {
        s[p] := QUESTION_MARK;
      }
      p := p + 1;
      n := n - 1;
    }
    FixedField(s0, s[..], at, length, p);
  }

  /** The state FixStringIn's loop ends in is FixField of the initial bytes. */
  lemma FixedField(s0: seq<u8>, s: seq<u8>, at: nat, length: nat, p: nat)
    requires at <= p <= at + length <= |s0| == |s|
    requires p < at + length ==> s0[p] == 0
    requires forall k :: at <= k < p ==> s0[k] != 0 && s[k] == FixByte(s0[k])
    requires forall k :: 0 <= k < |s| && !(at <= k < p) ==> s[k] == s0[k]
    ensures s == FixField(s0, at, length)
  {
    var b := s0[at..at + length];
    FirstIndexFrom(b, 0, p - at);
    var r := FixField(s0, at, length);
    forall k | 0 <= k < |s|
      ensures s[k] == r[k]
    {
      if at <= k < at + length {
        FixStringAt(b, k - at);
        assert r[k] == FixString(b)[k - at];
      }
    }
  }

  // ---------------------------------------------------------------------
  // Table headers

  /** `sizeof(struct acpi_table_header)`. */
  const HEADER_SIZE: nat := 36

  /**
   * The header as acpi_tb_cleanup_table_header leaves it: signature (4
   * bytes at 0), oem_id (6 at 10), oem_table_id (8 at 16) and
   * asl_compiler_id (4 at 28) repaired.
   */
  function CleanHeader(h: seq<u8>): (r: seq<u8>)
    requires |h| == HEADER_SIZE
    ensures |r| == HEADER_SIZE
  {
    FixField(FixField(FixField(FixField(h, 0, 4), 10, 6), 16, 8), 28, 4)
  }

  /** In a name field of the header, the cleaned bytes are the repaired field. */
  predicate IsNameByte(k: nat)
  {
    k < 4 || 10 <= k < 24 || 28 <= k < 32
  }

  /**
   * `acpi_tb_cleanup_table_header`: copies the header into out_header and
   * repairs the four name fields of the copy.
   */
  method CleanupTableHeader(outHeader: array<u8>, header: seq<u8>)
    requires outHeader.Length == HEADER_SIZE && |header| == HEADER_SIZE
    modifies outHeader
    ensures outHeader[..] == CleanHeader(header)
  {
    forall k | 0 <= k < HEADER_SIZE {
      outHeader[k] := header[k];
    }
    assert outHeader[..] == header;
    FixStringIn(outHeader, 0, 4);
    FixStringIn(outHeader, 10, 6);
    FixStringIn(outHeader, 16, 8);
    FixStringIn(outHeader, 28, 4);
  }

  /** FixField repairs its range and changes nothing outside it. */
  lemma FixFieldParts(s: seq<u8>, at: nat, length: nat)
    requires at + length <= |s|
    ensures FixField(s, at, length)[at..at + length] == FixString(s[at..at + length])
    ensures forall k :: 0 <= k < |s| && !(at <= k < at + length) ==> FixField(s, at, length)[k] == s[k]
  {
    var r := FixField(s, at, length);
    assert r[at..at + length] == FixString(s[at..at + length]);
    forall k | 0 <= k < |s| && !(at <= k < at + length)
      ensures r[k] == s[k]
    {
      if k < at {
        assert r[k] == s[..at][k];
      } else {
        assert r[k] == s[at + length..][k - at - length];
      }
    }
  }

  /** A range disjoint from the repaired one is copied unchanged. */
  lemma FixFieldKeeps(s: seq<u8>, at: nat, length: nat, lo: nat, hi: nat)
    requires at + length <= |s| && lo <= hi <= |s|
    requires hi <= at || at + length <= lo
    ensures FixField(s, at, length)[lo..hi] == s[lo..hi]
  {
    FixFieldParts(s, at, length);
    var r := FixField(s, at, length);
    assert forall k :: lo <= k < hi ==> r[k] == s[k];
  }

  /** The four name fields of the cleaned header are the repaired fields of the input. */
  lemma CleanHeaderFields(h: seq<u8>)
    requires |h| == HEADER_SIZE
    ensures var c := CleanHeader(h);
      c[0..4] == FixString(h[0..4]) && c[10..16] == FixString(h[10..16]) &&
      c[16..24] == FixString(h[16..24]) && c[28..32] == FixString(h[28..32])
  {
    var h1 := FixField(h, 0, 4);
    var h2 := FixField(h1, 10, 6);
    var h3 := FixField(h2, 16, 8);
    var c := FixField(h3, 28, 4);
    FixFieldParts(h, 0, 4);
    FixFieldParts(h1, 10, 6);
    FixFieldParts(h2, 16, 8);
    FixFieldParts(h3, 28, 4);
    FixFieldKeeps(h, 0, 4, 10, 16);
    FixFieldKeeps(h, 0, 4, 16, 24);
    FixFieldKeeps(h1, 10, 6, 16, 24);
    FixFieldKeeps(h, 0, 4, 28, 32);
    FixFieldKeeps(h1, 10, 6, 28, 32);
    FixFieldKeeps(h2, 16, 8, 28, 32);
    FixFieldKeeps(h1, 10, 6, 0, 4);
    FixFieldKeeps(h2, 16, 8, 0, 4);
    FixFieldKeeps(h3, 28, 4, 0, 4);
    FixFieldKeeps(h2, 16, 8, 10, 16);
    FixFieldKeeps(h3, 28, 4, 10, 16);
    FixFieldKeeps(h3, 28, 4, 16, 24);
  }

  /**
   * The cleaned header differs from the input only in the name fields: the
   * length, revision, checksum and both revision numbers are copied as they are.
   */
  lemma CleanHeaderKeepsNumbers(h: seq<u8>, k: nat)
    requires |h| == HEADER_SIZE && k < HEADER_SIZE && !IsNameByte(k)
    ensures CleanHeader(h)[k] == h[k]
  {
    var h1 := FixField(h, 0, 4);
    var h2 := FixField(h1, 10, 6);
    var h3 := FixField(h2, 16, 8);
    FixFieldKeeps(h, 0, 4, k, k + 1);
    FixFieldKeeps(h1, 10, 6, k, k + 1);
    FixFieldKeeps(h2, 16, 8, k, k + 1);
    FixFieldKeeps(h3, 28, 4, k, k + 1);
    assert CleanHeader(h)[k] == CleanHeader(h)[k..k + 1][0];
  }

  /** Cleaning a cleaned header changes nothing. */
  lemma CleanHeaderIdempotent(h: seq<u8>)
    requires |h| == HEADER_SIZE
    ensures CleanHeader(CleanHeader(h)) == CleanHeader(h)
  {
    var c := CleanHeader(h);
    var d := CleanHeader(c);
    CleanHeaderFields(h);
    CleanHeaderFields(c);
    FixStringIdempotent(h[0..4]);
    FixStringIdempotent(h[10..16]);
    FixStringIdempotent(h[16..24]);
    FixStringIdempotent(h[28..32]);
    forall k | 0 <= k < HEADER_SIZE
      ensures d[k] == c[k]
    {
      if k < 4 {
        assert d[k] == d[0..4][k] && c[k] == c[0..4][k];
      } else if 10 <= k < 16 {
        assert d[k] == d[10..16][k - 10] && c[k] == c[10..16][k - 10];
      } else if 16 <= k < 24 {
        assert d[k] == d[16..24][k - 16] && c[k] == c[16..24][k - 16];
      } else if 28 <= k < 32 {
        assert d[k] == d[28..32][k - 28] && c[k] == c[28..32][k - 28];
      } else {
        CleanHeaderKeepsNumbers(c, k);
      }
    }
  }
}
