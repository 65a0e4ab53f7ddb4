/**
 * The text handling of the test harness, tests/kerneltest.py: stripping
 * ANSI colour escapes and trailing newlines from the lines the guest
 * prints, Python's `str.split` and `str.join` on one separator character,
 * `%d` formatting, and the UTF-8 encoding (RFC 3629, section 3) that
 * `str.encode()` applies before text is written to the guest.
 *
 * Strings are sequences of Unicode scalar values.  Unlike a Python `str`,
 * they cannot hold a lone surrogate, on which `str.encode()` would raise.
 */
module KernelTestText {
  import opened Machine

  /** The escape character that starts an ANSI control sequence. */
  const ESC: char := 27 as char

  // ---------------------------------------------------------------------
  // re.sub(r'\x1b[^m]*m', '', line)

  /**
   * Every span from an ESC up to and including the next 'm' removed,
   * scanning left to right as `re.sub` does; an ESC with no 'm' after it
   * stays.
   */
  function StripAnsi(s: string): string
    decreases |s|
  {
    if |s| == 0 then []
    else if s[0] == ESC && SpanEnd(s) < |s| then StripAnsi(s[SpanEnd(s) + 1..])
    else [s[0]] + StripAnsi(s[1..])
  }

  /** The index of the first 'm' after the first character, or |s| when there is none. */
  function SpanEnd(s: string): (r: nat)
    requires |s| > 0
    ensures 1 <= r <= |s|
  {
    1 + FirstIndex(s[1..], 'm')
  }

  /** SpanEnd finds the first 'm' after index 0. */
  lemma SpanEndIsFirst(s: string)
    requires |s| > 0
    ensures SpanEnd(s) < |s| ==> s[SpanEnd(s)] == 'm'
    ensures forall k :: 1 <= k < SpanEnd(s) ==> s[k] != 'm'
  {
    var t := s[1..];
    FirstIndexIsFirst(t, 'm');
    forall k | 1 <= k < SpanEnd(s)
      ensures s[k] != 'm'
    {
      assert s[k] == t[..FirstIndex(t, 'm')][k - 1];
    }
  }

  /** No ESC is followed, anywhere later, by an 'm': nothing is left for the pattern to match. */
  predicate Clean(s: string)
  {
    forall i, j :: 0 <= i < j < |s| && s[i] == ESC ==> s[j] != 'm'
  }

  /** Stripping only deletes characters. */
  lemma {:induction false} StripAnsiKeeps(s: string, c: char)
    ensures c in StripAnsi(s) ==> c in s
    decreases |s|
  {
    if |s| > 0 {
      if s[0] == ESC && SpanEnd(s) < |s| {
        var t := s[SpanEnd(s) + 1..];
        StripAnsiKeeps(t, c);
        if c in t {
          var k :| 0 <= k < |t| && t[k] == c;
          assert s[SpanEnd(s) + 1 + k] == c;
        }
      } else {
        StripAnsiKeeps(s[1..], c);
        assert StripAnsi(s) == [s[0]] + StripAnsi(s[1..]);
        if c in StripAnsi(s[1..]) {
          assert c in s[1..];
        }
      }
    }
  }

  /** A clean string stays clean without its first character. */
  lemma CleanTail(s: string)
    requires |s| > 0 && Clean(s)
    ensures Clean(s[1..])
  {
    forall i, j | 0 <= i < j < |s[1..]| && s[1..][i] == ESC
      ensures s[1..][j] != 'm'
    {
      assert s[i + 1] == ESC;
    }
  }

  /** A character in front of a clean string keeps it clean unless it is an ESC before an 'm'. */
  lemma CleanCons(c: char, r: string)
    requires Clean(r) && (c == ESC ==> 'm' !in r)
    ensures Clean([c] + r)
  {
    var s := [c] + r;
    forall i, j | 0 <= i < j < |s| && s[i] == ESC
      ensures s[j] != 'm'
    {
      assert s[j] == r[j - 1];
      if i == 0 {
        assert r[j - 1] in r;
      } else {
        assert r[i - 1] == ESC;
      }
    }
  }

  /** A clean string is left as it is. */
  lemma {:induction false} CleanUnchanged(s: string)
    requires Clean(s)
    ensures StripAnsi(s) == s
    decreases |s|
  {
    if |s| > 0 {
      SpanEndIsFirst(s);
      if s[0] == ESC && SpanEnd(s) < |s| {
        assert false;
      }
      CleanTail(s);
      CleanUnchanged(s[1..]);
      assert s == [s[0]] + s[1..];
    }
  }

  /** Every escape span is gone after stripping. */
  lemma {:induction false} StripAnsiClean(s: string)
    ensures Clean(StripAnsi(s))
    decreases |s|
  {
    if |s| > 0 {
      if s[0] == ESC && SpanEnd(s) < |s| {
        StripAnsiClean(s[SpanEnd(s) + 1..]);
      } else {
        StripAnsiClean(s[1..]);
        if s[0] == ESC {
          SpanEndIsFirst(s);
          assert 'm' !in s[1..] by {
            forall k | 0 <= k < |s[1..]| ensures s[1..][k] != 'm' {
              assert s[1..][k] == s[k + 1];
            }
          }
          StripAnsiKeeps(s[1..], 'm');
        }
        CleanCons(s[0], StripAnsi(s[1..]));
      }
    }
  }

  /** Stripping twice is stripping once. */
  lemma StripAnsiIdempotent(s: string)
    ensures StripAnsi(StripAnsi(s)) == StripAnsi(s)
  {
    StripAnsiClean(s);
    CleanUnchanged(StripAnsi(s));
  }

  /** A line without an ESC is unchanged. */
  lemma EscFreeUnchanged(s: string)
    requires ESC !in s
    ensures StripAnsi(s) == s
  {
    CleanUnchanged(s);
  }

  /** ESC [ 3 1 ; 1 m, the harness's own red, is removed from around a word. */
  lemma StripRed()
    ensures StripAnsi([ESC] + "[31;1mFAIL" + [ESC] + "[0m") == "FAIL"
  {
    var s := [ESC] + "[31;1mFAIL" + [ESC] + "[0m";
    assert s[1..][5] == 'm';
    FirstIndexFrom(s[1..], 'm', 5);
    var t := s[7..];
    assert StripAnsi(s) == StripAnsi(t);
    var u := t[4..];
    assert u[1..][2] == 'm';
    FirstIndexFrom(u[1..], 'm', 2);
    assert StripAnsi(u) == [];
    assert StripAnsi(t[3..]) == "L";
    assert StripAnsi(t[2..]) == "IL";
    assert StripAnsi(t[1..]) == "AIL";
  }

  // ---------------------------------------------------------------------
  // line.rstrip('\n')

  /** The line without all of its trailing newlines. */
  function RStripNewlines(s: string): (r: string)
    ensures |r| <= |s| && r == s[..|r|]
    ensures |r| > 0 ==> r[|r| - 1] != '\n'
    ensures forall k :: |r| <= k < |s| ==> s[k] == '\n'
  {
    if |s| > 0 && s[|s| - 1] == '\n' then RStripNewlines(s[..|s| - 1]) else s
  }

  // ---------------------------------------------------------------------
  // str.split(sep) and sep.join(xs)

  /** `s.split(sep)` for a one-character separator: never empty, and "" gives [""]. */
  function Split(s: string, sep: char): (r: seq<string>)
    ensures |r| >= 1
    decreases |s|
  {
    var i := FirstIndex(s, sep);
    if i == |s| then [s] else [s[..i]] + Split(s[i + 1..], sep)
  }

  /** `sep.join(xs)` */
  function Join(sep: char, xs: seq<string>): string
  {
    if |xs| == 0 then "" else if |xs| == 1 then xs[0] else xs[0] + [sep] + Join(sep, xs[1..])
  }

  /** No element contains the separator. */
  predicate SepFree(xs: seq<string>, sep: char)
  {
    forall k :: 0 <= k < |xs| ==> sep !in xs[k]
  }

  /** Joining pieces that do not contain the separator and splitting again gives the pieces back. */
  lemma {:induction false} SplitJoin(xs: seq<string>, sep: char)
    requires |xs| >= 1 && SepFree(xs, sep)
    ensures Split(Join(sep, xs), sep) == xs
  {
    var x := xs[0];
    assert sep !in x;
    if |xs| == 1 {
      FirstIndexIsFirst(x, sep);
    } else {
      var j := Join(sep, xs[1..]);
      var s := x + [sep] + j;
      assert forall k :: 0 <= k < |x| ==> s[k] != sep by {
        forall k | 0 <= k < |x| ensures s[k] != sep {
          assert s[k] == x[k] && x[k] in x;
        }
      }
      FirstIndexFrom(s, sep, |x|);
      assert s[..|x|] == x && s[|x| + 1..] == j;
      SplitJoin(xs[1..], sep);
      assert xs == [x] + xs[1..];
    }
  }

  /** Splitting and joining again gives the string back. */
  lemma {:induction false} JoinSplit(s: string, sep: char)
    ensures Join(sep, Split(s, sep)) == s
    decreases |s|
  {
    var i := FirstIndex(s, sep);
    if i < |s| {
      FirstIndexIsFirst(s, sep);
      var rest := Split(s[i + 1..], sep);
      JoinSplit(s[i + 1..], sep);
      assert Split(s, sep) == [s[..i]] + rest;
      assert ([s[..i]] + rest)[1..] == rest;
      assert s == s[..i] + [sep] + s[i + 1..];
    }
  }

  /** The pieces of a split never contain the separator. */
  lemma {:induction false} SplitSepFree(s: string, sep: char)
    ensures SepFree(Split(s, sep), sep)
    decreases |s|
  {
    var i := FirstIndex(s, sep);
    FirstIndexIsFirst(s, sep);
    if i < |s| {
      SplitSepFree(s[i + 1..], sep);
    }
  }

  // ---------------------------------------------------------------------
  // '%d'

  function DigitChar(d: nat): char
    requires d < 10
  {
    (48 + d) as char
  }

  /** `'%d' % n` for n >= 0: decimal digits, the most significant first, no leading zero. */
  function Decimal(n: nat): (r: string)
    ensures |r| >= 1
    ensures forall k :: 0 <= k < |r| ==> '0' <= r[k] <= '9'
  {
    if n < 10 then [DigitChar(n)] else Decimal(n / 10) + [DigitChar(n % 10)]
  }

  /** The value of a string of decimal digits. */
  function DecimalValue(s: string): nat
    requires forall k :: 0 <= k < |s| ==> '0' <= s[k] <= '9'
  {
    if |s| == 0 then 0 else 10 * DecimalValue(s[..|s| - 1]) + (s[|s| - 1] as int - 48)
  }

  /** The digits read back as the number they were made from. */
  lemma {:induction false} DecimalRoundTrip(n: nat)
    ensures DecimalValue(Decimal(n)) == n
  {
    if n >= 10 {
      var r := Decimal(n);
      assert r[..|r| - 1] == Decimal(n / 10);
      DecimalRoundTrip(n / 10);
    }
  }

  // ---------------------------------------------------------------------
  // str.encode(): UTF-8

  /** One scalar value in UTF-8: one byte below 0x80, then two, three or four. */
  function EncodeChar(c: char): (r: seq<u8>)
    ensures 1 <= |r| <= 4
  {
    var v := c as int;
    if v < 0x80 then [v]
    else if v < 0x800 then [0xC0 + v / 0x40, 0x80 + v % 0x40]
    else if v < 0x1_0000 then [0xE0 + v / 0x1000, 0x80 + (v / 0x40) % 0x40, 0x80 + v % 0x40]
    else [0xF0 + v / 0x4_0000, 0x80 + (v / 0x1000) % 0x40, 0x80 + (v / 0x40) % 0x40, 0x80 + v % 0x40]
  }

  /** `s.encode()` */
  function Encode(s: string): seq<u8>
  {
    if |s| == 0 then [] else EncodeChar(s[0]) + Encode(s[1..])
  }

  /** Encoding is character by character: text written in two parts gives the same bytes. */
  lemma {:induction false} EncodeAppend(s: string, t: string)
    ensures Encode(s + t) == Encode(s) + Encode(t)
    decreases |s|
  {
    if |s| > 0 {
      assert (s + t)[1..] == s[1..] + t;
      EncodeAppend(s[1..], t);
    } else {
      assert s + t == t;
    }
  }

  /** Text in ASCII is written byte for byte: one byte per character, its code. */
  lemma {:induction false} EncodeAscii(s: string)
    requires forall k :: 0 <= k < |s| ==> s[k] as int < 0x80
    ensures |Encode(s)| == |s|
    ensures forall k :: 0 <= k < |s| ==> Encode(s)[k] == s[k] as int
  {
    if |s| > 0 {
      EncodeAscii(s[1..]);
    }
  }

  /** The sequence length a UTF-8 lead byte announces. */
  function LeadLength(b: u8): nat
  {
    if b < 0x80 then 1 else if b < 0xE0 then 2 else if b < 0xF0 then 3 else 4
  }

  /** The scalar value of one UTF-8 sequence. */
  function DecodeSequence(b: seq<u8>): int
    requires |b| > 0 && |b| == LeadLength(b[0])
  {
    var b0, b1, b2, b3 := b[0] as int, if |b| > 1 then b[1] as int else 0,
      if |b| > 2 then b[2] as int else 0, if |b| > 3 then b[3] as int else 0;
    if |b| == 1 then b0
    else if |b| == 2 then (b0 - 0xC0) * 0x40 + (b1 - 0x80)
    else if |b| == 3 then (b0 - 0xE0) * 0x1000 + (b1 - 0x80) * 0x40 + (b2 - 0x80)
    else (b0 - 0xF0) * 0x4_0000 + (b1 - 0x80) * 0x1000 + (b2 - 0x80) * 0x40 + (b3 - 0x80)
  }

  /**
   * The code points of a UTF-8 byte string, one sequence at a time as
   * the lead bytes announce; a truncated last sequence is dropped.
   */
  function Decode(b: seq<u8>): seq<int>
    decreases |b|
  {
    if |b| == 0 then []
    else
      var n := LeadLength(b[0]);
      if n > |b| then [] else [DecodeSequence(b[..n])] + Decode(b[n..])
  }

  /** The code points of a string. */
  function CodePoints(s: string): (r: seq<int>)
    ensures |r| == |s|
  {
    seq(|s|, k requires 0 <= k < |s| => s[k] as int)
  }

  /** Splitting v into 6-bit groups. */
  lemma SixBits(v: nat)
    ensures v == (v / 0x40) * 0x40 + v % 0x40
    ensures v / 0x40 == (v / 0x1000) * 0x40 + (v / 0x40) % 0x40
    ensures v / 0x1000 == (v / 0x4_0000) * 0x40 + (v / 0x1000) % 0x40
    ensures v / 0x1000 == (v / 0x40) / 0x40 && v / 0x4_0000 == (v / 0x1000) / 0x40
  {
  }

  /** A character's sequence announces its length and decodes to the character. */
  lemma EncodeCharRoundTrip(c: char)
    ensures LeadLength(EncodeChar(c)[0]) == |EncodeChar(c)|
    ensures DecodeSequence(EncodeChar(c)) == c as int
  {
    var v := c as int;
    assert v < 0x11_0000;
    SixBits(v);
  }

  /** Decoding a whole sequence in front of more bytes. */
  lemma DecodeFront(e: seq<u8>, rest: seq<u8>)
    requires |e| >= 1 && |e| == LeadLength(e[0])
    ensures Decode(e + rest) == [DecodeSequence(e)] + Decode(rest)
  {
    var b := e + rest;
    assert b[..|e|] == e && b[|e|..] == rest;
  }

  /** Decoding what `encode` produced gives the code points of the text. */
  lemma {:induction false} DecodeEncode(s: string)
    ensures Decode(Encode(s)) == CodePoints(s)
    decreases |s|
  {
    if |s| > 0 {
      EncodeCharRoundTrip(s[0]);
      DecodeFront(EncodeChar(s[0]), Encode(s[1..]));
      DecodeEncode(s[1..]);
      assert CodePoints(s) == [s[0] as int] + CodePoints(s[1..]);
    }
  }
}
