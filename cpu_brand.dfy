/**
 * The brand-string trimming of `get_model_name` (kernel/cpu.c): the
 * 48 bytes of the extended leaves 8000_0002H-8000_0004H stand in a 64-byte
 * model-id field; the leading ' ' bytes are dropped by shifting the rest
 * of the string down, and the string is cut after its last byte that is
 * not white space.
 */
module CpuBrand {
  import opened Machine
  import StringLib

  /** `x86_model_id` size, and the brand string length. */
  const MODEL_ID_BYTES := 64
  const BRAND_BYTES := 48

  /** The C string in a char array: everything before the first NUL. */
  function CStr(b: seq<u8>): seq<u8>
  {
    b[..FirstIndex(b, 0)]
  }

  /** A NUL-free prefix followed by a NUL is the C string. */
  lemma CStrOf(prefix: seq<u8>, rest: seq<u8>)
    requires 0 !in prefix && |rest| > 0 && rest[0] == 0
    ensures CStr(prefix + rest) == prefix
  {
    var b := prefix + rest;
    FirstIndexIsFirst(b, 0);
    assert b[|prefix|] == 0;
  }

  /** `isspace`: space, and tab through carriage return. */
  predicate IsSpace(c: u8)
  {
    c == 0x20 || 0x09 <= c <= 0x0d
  }

  /** A model-id buffer as `get_model_name` trims it: the brand, NUL at byte 48. */
  predicate BrandBuffer(b: seq<u8>)
  {
    |b| == MODEL_ID_BYTES && b[BRAND_BYTES] == 0
  }

  /** The first byte from p on that is not ' ' (the first loop). */
  function SkipBlanks(b: seq<u8>, p: nat): (r: nat)
    requires BrandBuffer(b) && p <= BRAND_BYTES
    ensures p <= r <= BRAND_BYTES && b[r] != ' ' as u8
    ensures forall j :: p <= j < r ==> b[j] == ' ' as u8
    decreases BRAND_BYTES - p
  {
    if b[p] == ' ' as u8 then SkipBlanks(b, p + 1) else p
  }

  /** The first NUL from p on. */
  function StrEnd(b: seq<u8>, p: nat): (r: nat)
    requires BrandBuffer(b) && p <= BRAND_BYTES
    ensures p <= r <= BRAND_BYTES && b[r] == 0
    ensures forall j :: p <= j < r ==> b[j] != 0
    decreases BRAND_BYTES - p
  {
    if b[p] == 0 then p else StrEnd(b, p + 1)
  }

  /** The string after its leading blanks. */
  function Unblanked(b: seq<u8>): (r: seq<u8>)
    requires BrandBuffer(b)
    ensures |r| <= BRAND_BYTES && 0 !in r
    ensures |r| > 0 ==> r[0] != ' ' as u8
  {
    var lead := SkipBlanks(b, 0);
    var r := b[lead..StrEnd(b, lead)];
    assert forall j :: 0 <= j < |r| ==> r[j] == b[lead + j];
    r
  }

  /** The index the loop's `s` ends on: the last byte that is not isspace, or 0. */
  function LastMark(r: seq<u8>): (k: nat)
    ensures k == 0 || (k < |r| && !IsSpace(r[k]))
    ensures forall j :: k < j < |r| ==> IsSpace(r[j])
  {
    if |r| == 0 then 0
    else if !IsSpace(r[|r| - 1]) then |r| - 1
    else LastMark(r[..|r| - 1])
  }

  /** The buffer after the trimming loops of `get_model_name`. */
  function Trimmed(b: seq<u8>): (r: seq<u8>)
    requires BrandBuffer(b)
    ensures |r| == MODEL_ID_BYTES
  {
    var rest := Unblanked(b);
    StringLib.Overwrite(b, 0, rest)[LastMark(rest) + 1 := 0]
  }

  /** Some byte of the string after its leading blanks is not isspace. */
  predicate HasMark(b: seq<u8>)
    requires BrandBuffer(b)
  {
    exists j :: 0 <= j < |Unblanked(b)| && !IsSpace(Unblanked(b)[j])
  }

  /**
   * For a brand with a character that is not white space, the trimmed
   * string is not empty, fits in the 48 brand bytes, and starts and ends
   * with a byte that is not white space.
   */
  lemma TrimmedEnds(b: seq<u8>)
    requires BrandBuffer(b) && HasMark(b)
    ensures var t := CStr(Trimmed(b));
      0 < |t| <= BRAND_BYTES && t[0] != 0x20 && !IsSpace(t[|t| - 1])
  {
    var rest := Unblanked(b);
    var j :| 0 <= j < |rest| && !IsSpace(rest[j]);
    TrimmedCStr(b);
    MarkedPrefix(rest, j);
  }

  /** A string with a mark at j, not starting with ' ', keeps both ends of that shape up to its last mark. */
  lemma MarkedPrefix(r: seq<u8>, j: nat)
    requires j < |r| && !IsSpace(r[j]) && r[0] != 0x20
    ensures var t := r[..LastMark(r) + 1];
      0 < |t| <= |r| && t[0] != 0x20 && !IsSpace(t[|t| - 1])
  {
    var m := LastMark(r);
    assert m == 0 ==> j == 0;
    assert !IsSpace(r[m]);
  }

  /** The leading ' ' bytes of the brand, which the first loop skips. */
  function Leading(b: seq<u8>): seq<u8>
    requires BrandBuffer(b)
  {
    b[..SkipBlanks(b, 0)]
  }

  /** The white space after the last mark, which the NUL cuts off. */
  function Trailing(b: seq<u8>): seq<u8>
    requires BrandBuffer(b)
  {
    var rest := Unblanked(b);
    if |rest| == 0 then [] else rest[LastMark(rest) + 1..]
  }

  lemma LeadingBlanks(b: seq<u8>)
    requires BrandBuffer(b)
    ensures forall j :: 0 <= j < |Leading(b)| ==> Leading(b)[j] == 0x20
  {
  }

  lemma TrailingSpace(b: seq<u8>)
    requires BrandBuffer(b) && HasMark(b)
    ensures forall j :: 0 <= j < |Trailing(b)| ==> IsSpace(Trailing(b)[j])
  {
    var tail := MarkSplit(Unblanked(b));
  }

  /**
   * For a brand with a character that is not white space, the brand is
   * its leading blanks, then the trimmed string, then white space:
   * trimming removes nothing else.
   */
  lemma TrimmedWithin(b: seq<u8>)
    requires BrandBuffer(b) && HasMark(b)
    ensures CStr(b) == Leading(b) + CStr(Trimmed(b)) + Trailing(b)
  {
    var rest := Unblanked(b);
    var m := LastMark(rest);
    TrimmedCStr(b);
    UnblankedSplit(b);
    var tail := MarkSplit(rest);
    Assemble(CStr(b), Leading(b), rest, rest[..m + 1], tail);
  }

  lemma Assemble(c: seq<u8>, lead: seq<u8>, rest: seq<u8>, t: seq<u8>, tail: seq<u8>)
    requires c == lead + rest && rest == t + tail
    ensures c == lead + t + tail
  {
  }

  /** A string is its part up to the last mark, then white space. */
  lemma MarkSplit(rest: seq<u8>) returns (tail: seq<u8>)
    requires |rest| > 0
    ensures rest == rest[..LastMark(rest) + 1] + tail
    ensures forall j :: 0 <= j < |tail| ==> IsSpace(tail[j])
  {
    var m := LastMark(rest);
    tail := rest[m + 1..];
    forall k | 0 <= k < |tail| ensures IsSpace(tail[k]) {
      assert tail[k] == rest[m + 1 + k];
    }
  }

  /** The trimmed buffer's C string runs up to and including the last mark. */
  lemma TrimmedCStr(b: seq<u8>)
    requires BrandBuffer(b) && |Unblanked(b)| > 0
    ensures CStr(Trimmed(b)) == Unblanked(b)[..LastMark(Unblanked(b)) + 1]
  {
    var rest := Unblanked(b);
    var m := LastMark(rest);
    var o := StringLib.Overwrite(b, 0, rest);
    var tr := Trimmed(b);
    forall k | 0 <= k <= m
      ensures tr[k] == rest[k]
    {
      StringLib.OverwriteAt(b, 0, rest, k);
    }
    assert tr == rest[..m + 1] + tr[m + 1..];
    CStrOf(rest[..m + 1], tr[m + 1..]);
  }

  /** The brand's C string is its leading blanks followed by the rest. */
  lemma UnblankedSplit(b: seq<u8>)
    requires BrandBuffer(b)
    ensures CStr(b) == b[..SkipBlanks(b, 0)] + Unblanked(b)
  {
    var lead := SkipBlanks(b, 0);
    var end := StrEnd(b, lead);
    assert b[..end] == b[..lead] + Unblanked(b);
    assert b == b[..end] + b[end..];
    assert 0 !in b[..end];
    CStrOf(b[..end], b[end..]);
  }

  /**
   * The brand with no character other than white space is not emptied:
   * unless it is empty, a single byte remains, the first white-space byte
   * after the leading blanks, or ' ' when there is none.
   */
  lemma TrimmedBlank(b: seq<u8>)
    requires BrandBuffer(b) && !HasMark(b)
    ensures var t := CStr(Trimmed(b));
      var rest := Unblanked(b);
      && (b[0] == 0 ==> t == [])
      && (b[0] != 0 ==> t == [if |rest| > 0 then rest[0] else b[0]] && IsSpace(t[0]))
  {
    var rest := Unblanked(b);
    var tr := Trimmed(b);
    assert LastMark(rest) == 0;
    if b[0] == 0 {
      assert SkipBlanks(b, 0) == 0 && StrEnd(b, 0) == 0;
      CStrOf([], tr);
    } else {
      assert tr == [tr[0]] + tr[1..];
      assert tr[0] != 0;
      CStrOf([tr[0]], tr[1..]);
      if |rest| == 0 {
        assert SkipBlanks(b, 0) > 0;
      } else {
        assert IsSpace(rest[0]);
      }
    }
  }

  /**
   * The two loops and the final store of `get_model_name`, in place:
   * p skips the leading ' ', then q copies each byte down while s
   * remembers the last one that is not white space, and s + 1 gets the
   * NUL.
   */
  method TrimModelName(id: array<u8>)
    requires BrandBuffer(id[..])
    modifies id
    ensures id[..] == Trimmed(old(id[..]))
  {
    ghost var b := id[..];
    var p := SkipLeading(id);
    var q, s := ShiftDown(id, p);
    Shifted(id[..], b, p, q);
    LastMarkInSlice(b, p, p + q);
    id[s + 1] := 0;
  }

  /** The first loop: the index of the first byte that is not ' '. */
  method SkipLeading(id: array<u8>) returns (p: nat)
    requires BrandBuffer(id[..])
    ensures p == SkipBlanks(id[..], 0)
  {
    p := 0;
    while id[p] == 0x20
      invariant p <= BRAND_BYTES && SkipBlanks(id[..], 0) == SkipBlanks(id[..], p)
      decreases BRAND_BYTES - p
    {
      p := p + 1;
    }
  }

  /**
   * The second loop: the q bytes from p up to the NUL are copied down to
   * the start of the buffer, and s is the index of the last of them that
   * is not white space (or 0).
   */
  method ShiftDown(id: array<u8>, p: nat) returns (q: nat, s: nat)
    requires id.Length == MODEL_ID_BYTES && p <= BRAND_BYTES && id[BRAND_BYTES] == 0
    modifies id
    ensures p + q <= BRAND_BYTES && old(id[p + q]) == 0 && NulFree(old(id[..]), p, p + q)
    ensures ShiftedTo(id[..], old(id[..]), p, q) && s == LastMarkIn(old(id[..]), p, p + q)
  {
    ghost var b := id[..];
    var i := p;
    q := 0;
    s := 0;
    while id[i] != 0
      invariant p <= i <= BRAND_BYTES && q == i - p && NulFree(b, p, i)
      invariant |id[..]| == MODEL_ID_BYTES && ShiftedTo(id[..], b, p, q)
      invariant s == LastMarkIn(b, p, i)
      decreases BRAND_BYTES - i
    {
      ghost var before := id[..];
      if !IsSpace(id[i]) {
        s := q;
      }
      id[q] := id[i];
      ShiftStep(before, b, p, q);
      q := q + 1;
      i := i + 1;
    }
  }

  /** No NUL in b[p..e]. */
  ghost predicate NulFree(b: seq<u8>, p: nat, e: nat)
    requires p <= e <= |b|
  {
    forall j :: p <= j < e ==> b[j] != 0
  }

  /** The first NUL from p on is at e. */
  lemma {:induction false} StrEndAt(b: seq<u8>, p: nat, e: nat)
    requires BrandBuffer(b) && p <= e <= BRAND_BYTES && NulFree(b, p, e) && b[e] == 0
    ensures StrEnd(b, p) == e
    decreases e - p
  {
    if p < e {
      StrEndAt(b, p + 1, e);
    }
  }

  /** The first q bytes hold the string from p on; the others are as in b. */
  ghost predicate ShiftedTo(r: seq<u8>, b: seq<u8>, p: nat, q: nat)
    requires |r| == |b| && p + q <= |b|
  {
    && (forall j :: 0 <= j < q ==> r[j] == b[p + j])
    && (forall j :: q <= j < |b| ==> r[j] == b[j])
  }

  /** One more byte copied down. */
  lemma ShiftStep(r: seq<u8>, b: seq<u8>, p: nat, q: nat)
    requires |r| == |b| && p + q < |b| && ShiftedTo(r, b, p, q)
    ensures ShiftedTo(r[q := r[p + q]], b, p, q + 1)
  {
  }

  /** LastMark of b[p..e], as the loop computes it: relative to p. */
  function LastMarkIn(b: seq<u8>, p: nat, e: nat): nat
    requires p <= e <= |b|
    decreases e
  {
    if e == p then 0
    else if !IsSpace(b[e - 1]) then e - 1 - p
    else LastMarkIn(b, p, e - 1)
  }

  lemma {:induction false} LastMarkInSlice(b: seq<u8>, p: nat, e: nat)
    requires p <= e <= |b|
    ensures LastMarkIn(b, p, e) == LastMark(b[p..e])
    decreases e
  {
    if e > p {
      assert b[p..e][..e - 1 - p] == b[p..e - 1];
      LastMarkInSlice(b, p, e - 1);
    }
  }

  /** What the second loop leaves: the string from p on at the start, the rest unchanged. */
  lemma Shifted(r: seq<u8>, b: seq<u8>, p: nat, q: nat)
    requires BrandBuffer(b) && p == SkipBlanks(b, 0) && p + q <= BRAND_BYTES && b[p + q] == 0
    requires NulFree(b, p, p + q) && |r| == MODEL_ID_BYTES && ShiftedTo(r, b, p, q)
    ensures r == StringLib.Overwrite(b, 0, Unblanked(b)) && b[p..p + q] == Unblanked(b)
  {
    StrEndAt(b, p, p + q);
    var rest := Unblanked(b);
    assert |rest| == q;
    StringLib.OverwriteIntro(r, b, 0, rest);
  }
}
