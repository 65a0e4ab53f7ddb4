/**
 * The test harness of tests/kerneltest.py: a test case reads the guest's
 * output line by line until a pattern matches (`_assertOutput`), writes to
 * its input (`input`), and the result class counts passes and failures and
 * prints the coloured report.  The `kernel` decorator assembles the
 * `make qemu` command that starts the guest.
 *
 * The guest's output is a finite sequence of reads, the regular-expression
 * search a predicate `search(regex, line)`, and whether a file exists a
 * predicate `isFile(path)`; all three are parameters.
 */
module KernelTest {
  import opened Machine
  import opened KernelTestText

  // ---------------------------------------------------------------------
  // The line scan of _assertOutput

  /**
   * One `readline()` on the guest's standard output, decoded: a line
   * (with its newline, if it has one; the empty line is end of file) or
   * a wait that ran out (`_assertOutput` waits `TIMEOUT`, 5 seconds, for
   * each line; the clock itself is not modelled).
   */
  datatype Read = Line(raw: string) | Timeout

  /** A line as `_assertOutput` keeps it: trailing newlines removed, then the colour escapes. */
  function Processed(raw: string): string
  {
    StripAnsi(RStripNewlines(raw))
  }

  /** What one `_assertOutput` call does from stream position pos on. */
  datatype Scan = Scan(found: bool, next: nat, lines: seq<string>)

  /**
   * The loop of `_assertOutput(regex)` from stream position pos: each line
   * read is processed and recorded, and the call returns on the first one
   * `search` accepts.  It stops without a match at a timeout, which uses
   * up that read, or at end of file, which does not: every later read is
   * empty too.  The end of the sequence is end of file.
   */
  function ScanFrom(stream: seq<Read>, pos: nat, regex: string, search: (string, string) -> bool): Scan
    decreases |stream| - pos
  {
    if pos >= |stream| then Scan(false, pos, [])
    else match stream[pos]
      case Timeout => Scan(false, pos + 1, [])
      case Line(raw) =>
        if |raw| == 0 then Scan(false, pos, [])
        else if search(regex, Processed(raw)) then Scan(true, pos + 1, [Processed(raw)])
        else
          var rest := ScanFrom(stream, pos + 1, regex, search);
          Scan(rest.found, rest.next, [Processed(raw)] + rest.lines)
  }

  /** A read that delivers a line: not a timeout and not end of file. */
  predicate Delivers(r: Read)
  {
    r.Line? && |r.raw| > 0
  }

  /** Every line recorded is the processed form of the next read, in stream order. */
  lemma {:induction false} ScanRecords(stream: seq<Read>, pos: nat, regex: string, search: (string, string) -> bool)
    requires pos <= |stream|
    ensures var r := ScanFrom(stream, pos, regex, search);
      pos + |r.lines| <= |stream| &&
      forall k :: pos <= k < pos + |r.lines| ==>
        Delivers(stream[k]) && r.lines[k - pos] == Processed(stream[k].raw)
    decreases |stream| - pos
  {
    if pos < |stream| && Delivers(stream[pos]) && !search(regex, Processed(stream[pos].raw)) {
      ScanRecords(stream, pos + 1, regex, search);
      var rest := ScanFrom(stream, pos + 1, regex, search);
      var lines := [Processed(stream[pos].raw)] + rest.lines;
      forall k | pos + 1 <= k < pos + |lines|
        ensures Delivers(stream[k]) && lines[k - pos] == Processed(stream[k].raw)
      {
        assert lines[k - pos] == rest.lines[k - (pos + 1)];
      }
    }
  }

  /**
   * The call succeeds exactly when the last line recorded matches, and no
   * line before it does: it returns on the first match.
   */
  lemma {:induction false} ScanFirstMatch(stream: seq<Read>, pos: nat, regex: string, search: (string, string) -> bool)
    ensures var r := ScanFrom(stream, pos, regex, search);
      (r.found ==> |r.lines| > 0) &&
      forall k :: 0 <= k < |r.lines| ==> (search(regex, r.lines[k]) <==> r.found && k == |r.lines| - 1)
    decreases |stream| - pos
  {
    if pos < |stream| && Delivers(stream[pos]) && !search(regex, Processed(stream[pos].raw)) {
      ScanFirstMatch(stream, pos + 1, regex, search);
      var rest := ScanFrom(stream, pos + 1, regex, search);
      var lines := [Processed(stream[pos].raw)] + rest.lines;
      forall k | 1 <= k < |lines|
        ensures lines[k] == rest.lines[k - 1]
      {
      }
    }
  }

  /**
   * Where the scan stops: after the matching line, or at end of file
   * (left for the next call), or after a timeout.
   */
  lemma {:induction false} ScanStops(stream: seq<Read>, pos: nat, regex: string, search: (string, string) -> bool)
    requires pos <= |stream|
    ensures var r := ScanFrom(stream, pos, regex, search);
      var end := pos + |r.lines|;
      (r.found ==> r.next == end) &&
      (!r.found ==>
        (r.next == end == |stream|) ||
        (r.next == end < |stream| && stream[end] == Line("")) ||
        (r.next == end + 1 <= |stream| && stream[end] == Timeout))
    decreases |stream| - pos
  {
    if pos < |stream| && Delivers(stream[pos]) && !search(regex, Processed(stream[pos].raw)) {
      ScanStops(stream, pos + 1, regex, search);
    }
  }

  /** The lines the first n reads delivered, processed, in order: `self.output` after them. */
  function Consumed(stream: seq<Read>, n: nat): seq<string>
    requires n <= |stream|
  {
    if n == 0 then []
    else
      Consumed(stream, n - 1) +
      (if Delivers(stream[n - 1]) then [Processed(stream[n - 1].raw)] else [])
  }

  /** Two scans that stop in the same way at the same place. */
  predicate Ends(r: Scan, e: Scan)
  {
    r.found == e.found && r.next == e.next
  }

  /** The first step of a scan. */
  lemma ScanStep(stream: seq<Read>, pos: nat, regex: string, search: (string, string) -> bool)
    requires pos < |stream|
    ensures stream[pos].Timeout? ==> ScanFrom(stream, pos, regex, search) == Scan(false, pos + 1, [])
    ensures stream[pos] == Line("") ==> ScanFrom(stream, pos, regex, search) == Scan(false, pos, [])
    ensures Delivers(stream[pos]) && search(regex, Processed(stream[pos].raw)) ==>
      Ends(ScanFrom(stream, pos, regex, search), Scan(true, pos + 1, []))
    ensures Delivers(stream[pos]) && !search(regex, Processed(stream[pos].raw)) ==>
      Ends(ScanFrom(stream, pos, regex, search), ScanFrom(stream, pos + 1, regex, search))
  {
  }

  /** One more read adds its line to the output if it delivers one. */
  lemma ConsumedStep(stream: seq<Read>, pos: nat)
    requires pos < |stream|
    ensures Delivers(stream[pos]) ==> Consumed(stream, pos + 1) == Consumed(stream, pos) + [Processed(stream[pos].raw)]
    ensures !Delivers(stream[pos]) ==> Consumed(stream, pos + 1) == Consumed(stream, pos)
  {
  }

  /** A scan appends to the output exactly the lines the reads it used up delivered. */
  lemma {:induction false} ScanConsumed(stream: seq<Read>, pos: nat, regex: string, search: (string, string) -> bool)
    requires pos <= |stream|
    ensures var r := ScanFrom(stream, pos, regex, search);
      r.next <= |stream| && Consumed(stream, r.next) == Consumed(stream, pos) + r.lines
    decreases |stream| - pos
  {
    if pos < |stream| && Delivers(stream[pos]) && !search(regex, Processed(stream[pos].raw)) {
      ScanConsumed(stream, pos + 1, regex, search);
    }
  }

  /**
   * Two assertions in a row: the second starts reading right after the
   * line the first matched, so together they see the guest's lines in the
   * order it printed them.
   */
  lemma SequentialScans(stream: seq<Read>, pos: nat, regex1: string, regex2: string, search: (string, string) -> bool)
    requires pos <= |stream|
    requires ScanFrom(stream, pos, regex1, search).found
    ensures var r1 := ScanFrom(stream, pos, regex1, search);
      var r2 := ScanFrom(stream, r1.next, regex2, search);
      var lines := r1.lines + r2.lines;
      pos + |lines| <= |stream| &&
      forall k :: pos <= k < pos + |lines| ==> Delivers(stream[k]) && lines[k - pos] == Processed(stream[k].raw)
  {
    var r1 := ScanFrom(stream, pos, regex1, search);
    ScanRecords(stream, pos, regex1, search);
    ScanStops(stream, pos, regex1, search);
    ScanRecords(stream, r1.next, regex2, search);
    var r2 := ScanFrom(stream, r1.next, regex2, search);
    forall k | r1.next <= k < r1.next + |r2.lines|
      ensures Delivers(stream[k]) && (r1.lines + r2.lines)[k - pos] == Processed(stream[k].raw)
    {
      assert (r1.lines + r2.lines)[k - pos] == r2.lines[k - r1.next];
    }
  }

  // ---------------------------------------------------------------------
  // The failure message

  /** `output[-n:]` */
  function LastLines(output: seq<string>, n: nat): (r: seq<string>)
    ensures |r| == if |output| < n then |output| else n
    ensures r == output[|output| - |r|..]
  {
    if |output| <= n then output else output[|output| - n..]
  }

  /** What follows the pattern in the message, up to the recorded lines. */
  const NOT_FOUND: string := "' not found in output:\n...\n"

  /** The message `_assertOutput` fails with: the pattern, then the last ten lines recorded. */
  function FailureMessage(regex: string, output: seq<string>): string
  {
    "`" + regex + NOT_FOUND + Join('\n', LastLines(output, 10))
  }

  /** What `readline()` returns: a newline can only be the last character. */
  predicate OneLine(raw: string)
  {
    forall k :: 0 <= k < |raw| - 1 ==> raw[k] != '\n'
  }

  /** A line read has no newline left once processed. */
  lemma ProcessedNewlineFree(raw: string)
    requires OneLine(raw)
    ensures '\n' !in Processed(raw)
  {
    var r := RStripNewlines(raw);
    forall k | 0 <= k < |r|
      ensures r[k] != '\n'
    {
      assert r[k] == raw[k];
    }
    StripAnsiKeeps(r, '\n');
  }

  /** When every read is one line, no recorded line contains a newline. */
  lemma {:induction false} ConsumedNewlineFree(stream: seq<Read>, n: nat)
    requires n <= |stream|
    requires forall k :: 0 <= k < |stream| && stream[k].Line? ==> OneLine(stream[k].raw)
    ensures SepFree(Consumed(stream, n), '\n')
  {
    if n > 0 {
      ConsumedNewlineFree(stream, n - 1);
      if Delivers(stream[n - 1]) {
        ProcessedNewlineFree(stream[n - 1].raw);
      }
    }
  }

  /**
   * The message names the pattern and ends with the last min(10, |output|)
   * lines, in order: splitting its tail at the newlines gives them back.
   */
  lemma FailureMessageParts(regex: string, output: seq<string>)
    requires |output| > 0 && SepFree(output, '\n')
    ensures var m := FailureMessage(regex, output);
      var tail := 1 + |regex| + |NOT_FOUND|;
      tail <= |m| && m[1..1 + |regex|] == regex &&
      Split(m[tail..], '\n') == LastLines(output, 10)
  {
    var last := LastLines(output, 10);
    LastLinesSepFree(output, 10, '\n');
    SplitJoin(last, '\n');
    MessageParts("`", regex, NOT_FOUND, Join('\n', last));
  }

  /** The lines kept at the end of the output keep the output's separator freedom. */
  lemma LastLinesSepFree(output: seq<string>, n: nat, sep: char)
    requires SepFree(output, sep)
    ensures SepFree(LastLines(output, n), sep)
  {
    var last := LastLines(output, n);
    forall k | 0 <= k < |last|
      ensures sep !in last[k]
    {
      assert last[k] == output[|output| - |last| + k];
    }
  }

  /** The second and the last of four concatenated strings, cut back out. */
  lemma MessageParts(a: string, b: string, c: string, d: string)
    ensures var m := a + b + c + d;
      |a| + |b| + |c| <= |m| && m[|a|..|a| + |b|] == b && m[|a| + |b| + |c|..] == d
  {
    var m := a + b + c + d;
    assert m == (a + b) + (c + d);
    assert m[|a|..|a| + |b|] == (a + b)[|a|..];
    assert m[|a| + |b| + |c|..] == (c + d)[|c|..];
  }

  // ---------------------------------------------------------------------
  // KernelTestCase

  /** What `input` is given: text, which it encodes, or bytes. */
  datatype Data = Text(s: string) | Raw(b: seq<u8>)

  /** The bytes `input(d)` writes: `str.encode()` of text, bytes as they are. */
  function Bytes(d: Data): seq<u8>
  {
    match d
    case Text(s) => Encode(s)
    case Raw(b) => b
  }

  /** Writing two texts one after the other is writing their concatenation: nothing is added between them. */
  lemma InputConcat(s: string, t: string)
    ensures Bytes(Text(s)) + Bytes(Text(t)) == Bytes(Text(s + t))
  {
    EncodeAppend(s, t);
  }

  /** The guest reads back exactly the characters of the text written, and no newline after them. */
  lemma InputDecodes(s: string)
    ensures Decode(Bytes(Text(s))) == CodePoints(s)
  {
    DecodeEncode(s);
  }

  /** A test case talking to one guest. */
  class KernelTestCase {
    /** Every read the guest's standard output will give, in order. */
    const stream: seq<Read>
    /** How many reads have been used up. */
    var cursor: nat
    /** `self.output`: every line recorded so far. */
    var output: seq<string>
    /** The bytes written to the guest's standard input. */
    var stdin: seq<u8>

    ghost predicate Valid()
      reads this
    {
      cursor <= |stream| && output == Consumed(stream, cursor)
    }

    /** `setUp`, then the guest started by the `kernel` decorator: nothing read or written yet. */
    constructor (stream: seq<Read>)
      ensures Valid() && this.stream == stream
      ensures cursor == 0 && output == [] && stdin == []
    {
      this.stream := stream;
      cursor := 0;
      output := [];
      stdin := [];
    }

    /**
     * `_assertOutput(regex)`: None when a line matched, or the message the
     * test fails with.  The lines read are recorded in `output`.
     */
    method AssertOutput(regex: string, search: (string, string) -> bool) returns (failure: Option<string>)
      requires Valid()
      modifies this
      ensures Valid()
      ensures var r := ScanFrom(stream, old(cursor), regex, search);
        cursor == r.next && output == old(output) + r.lines &&
        failure == if r.found then None else Some(FailureMessage(regex, output))
      ensures stdin == old(stdin)
    {
      var s := stream;
      var start := cursor;
      var pos, out := start, output;
      var found, done := false, false;
      while !done && pos < |s|
        invariant start <= pos <= |s| && out == Consumed(s, pos)
        invariant !done ==> !found
        invariant stdin == old(stdin)
        invariant !done ==> Ends(ScanFrom(s, start, regex, search), ScanFrom(s, pos, regex, search))
        invariant done ==> Ends(ScanFrom(s, start, regex, search), Scan(found, pos, []))
        decreases |s| - pos, if done then 0 else 1
      {
        ScanStep(s, pos, regex, search);
        ConsumedStep(s, pos);
        match s[pos] {
          case Timeout =>
            pos, done := pos + 1, true;
          case Line(raw) =>
            if |raw| == 0 {
              done := true;
            } else {
              var line := Processed(raw);
              out := out + [line];
              pos := pos + 1;
              if search(regex, line) {
                found, done := true, true;
              }
            }
        }
      }
      ScanConsumed(s, start, regex, search);
      failure := if found then None else Some(FailureMessage(regex, out));
      cursor, output := pos, out;
    }

    /** `input(s)`: the bytes are written to the guest as they are, with no newline added. */
    method Input(d: Data)
      modifies this
      ensures stdin == old(stdin) + Bytes(d)
      ensures cursor == old(cursor) && output == old(output)
    {
      stdin := stdin + Bytes(d);
    }
  }

  // ---------------------------------------------------------------------
  // getDescription

  const TEST_PREFIX: string := "test_"

  /** The method name without a leading "test_". */
  function DropTestPrefix(meth: string): string
  {
    if |meth| >= |TEST_PREFIX| && meth[..|TEST_PREFIX|] == TEST_PREFIX then meth[|TEST_PREFIX|..] else meth
  }

  /**
   * `getDescription`: "Class.method" from the last two dotted parts of the
   * test id; None where the unpacking of a single part raises.
   */
  function Description(id: string): Option<string>
  {
    var parts := Split(id, '.');
    if |parts| < 2 then None
    else Some(Join('.', [parts[|parts| - 2], DropTestPrefix(parts[|parts| - 1])]))
  }

  /** The description of module.Class.test_method is Class.method, whatever the module path. */
  lemma DescriptionOfId(path: seq<string>, cls: string, meth: string)
    requires SepFree(path + [cls, meth], '.')
    ensures Description(Join('.', path + [cls, meth])) == Some(cls + "." + DropTestPrefix(meth))
  {
    var parts := path + [cls, meth];
    SplitJoin(parts, '.');
    assert parts[|parts| - 2] == cls && parts[|parts| - 1] == meth;
    var m := DropTestPrefix(meth);
    assert Join('.', [cls, m]) == cls + ['.'] + Join('.', [m]);
  }

  /** "test_" is dropped from the front of the method name, and nothing else is. */
  lemma DropTestPrefixSpec(meth: string)
    ensures DropTestPrefix(TEST_PREFIX + meth) == meth
    ensures !(TEST_PREFIX <= meth) ==> DropTestPrefix(meth) == meth
  {
    assert (TEST_PREFIX + meth)[..|TEST_PREFIX|] == TEST_PREFIX;
  }

  /** A test id has a description exactly when it has a dot. */
  lemma DescriptionDefined(id: string)
    ensures Description(id).Some? <==> '.' in id
  {
    var i := FirstIndex(id, '.');
    FirstIndexIsFirst(id, '.');
    if i == |id| {
      assert id[..i] == id;
    }
  }

  /** The ids of the tests unittest runs: `module.Class.method`. */
  predicate TestId(id: string)
  {
    '.' in id
  }

  /** `getDescription(test)` of a test with such an id. */
  function Label(id: string): string
    requires TestId(id)
  {
    DescriptionDefined(id);
    Description(id).value
  }

  // ---------------------------------------------------------------------
  // KernelTestResult

  const GREEN: string := [ESC] + "[32;1m"
  const RED: string := [ESC] + "[31;1m"
  const RESET: string := [ESC] + "[0m"

  /** `n != 1 and 's' or ''` */
  function Plural(n: nat): string
  {
    if n != 1 then "s" else ""
  }

  /** The plural ending appears exactly when the count is not one. */
  lemma PluralSpec(n: nat)
    ensures Plural(n) == "s" <==> n != 1
    ensures Plural(n) == "" <==> n == 1
  {
  }

  /** `startTestRun`'s line. */
  function RunningLine(n: nat): string
  {
    GREEN + "[==========]" + RESET + " Running " + Decimal(n) + " test" + Plural(n)
  }

  /** `startTest`'s line. */
  function RunLine(desc: string): string
  {
    GREEN + "[ RUN      ]" + RESET + " " + desc
  }

  /** `addSuccess`'s line; `elapsed` is the time taken as `%.3f` prints it. */
  function OkLine(desc: string, elapsed: string): string
  {
    GREEN + "[       OK ]" + RESET + " " + desc + " (" + elapsed + "s)"
  }

  /** `addFailure`'s second line. */
  function FailedLine(desc: string, elapsed: string): string
  {
    RED + "[  FAILED  ]" + RESET + " " + desc + " (" + elapsed + "s)"
  }

  /** The line `printErrors` lists a failed test on, trailing space included. */
  function ListedLine(desc: string): string
  {
    RED + "[  FAILED  ]" + RESET + " " + desc + " "
  }

  /** The failures share this bound: every failed test has a description. */
  predicate Described(failures: seq<(string, string)>)
  {
    forall k :: 0 <= k < |failures| ==> TestId(failures[k].0)
  }

  /** The listing at the end of `printErrors`: one line per failure, in the order they happened. */
  function Listing(failures: seq<(string, string)>): seq<string>
    requires Described(failures)
  {
    if |failures| == 0 then []
    else Listing(failures[..|failures| - 1]) + [ListedLine(Label(failures[|failures| - 1].0))]
  }

  /** The listing has one line per failure, the k-th naming the k-th failed test. */
  lemma {:induction false} ListingLines(failures: seq<(string, string)>)
    requires Described(failures)
    ensures |Listing(failures)| == |failures|
    ensures forall k :: 0 <= k < |failures| ==> Listing(failures)[k] == ListedLine(Label(failures[k].0))
  {
    if |failures| > 0 {
      var front := failures[..|failures| - 1];
      ListingLines(front);
      assert forall k :: 0 <= k < |front| ==> front[k] == failures[k];
    }
  }

  /** Everything `printErrors` writes. */
  function Report(n: nat, passes: nat, failures: seq<(string, string)>, elapsed: string): seq<string>
    requires Described(failures)
  {
    var nf := |failures|;
    [GREEN + "[==========]" + RESET + " " + Decimal(n) + " test" + Plural(n) + " ran (" + elapsed + "s)",
     GREEN + "[  PASSED  ]" + RESET + " " + Decimal(passes) + " test" + Plural(passes)] +
    if nf == 0 then []
    else [RED + "[  FAILED  ]" + RESET + " " + Decimal(nf) + " test" + Plural(nf) + ", listed below:"] + Listing(failures)
  }

  /** The report lists every failure, after its three header lines, and nothing when there is none. */
  lemma ReportListsFailures(n: nat, passes: nat, failures: seq<(string, string)>, elapsed: string)
    requires Described(failures)
    ensures var r := Report(n, passes, failures, elapsed);
      |r| == (if |failures| == 0 then 2 else 3 + |failures|) &&
      forall k :: 0 <= k < |failures| ==> r[3 + k] == ListedLine(Label(failures[k].0))
  {
    ListingLines(failures);
  }

  /** How the runner ends a test: `addSuccess`, `addFailure` or `addError` with the formatted error. */
  datatype Outcome = Success | Failure(err: string) | Error(err: string)

  /** The result object: counters, the failures, and the lines written to the stream. */
  class KernelTestResult {
    /** `testSuite.countTestCases()` */
    const testCount: nat
    /** `testsRun`, counted by `TestResult.startTest`. */
    var testsRun: nat
    var passes: nat
    /** `failures`: (test id, formatted error) pairs, oldest first. */
    var failures: seq<(string, string)>
    /** The lines written to the stream. */
    var log: seq<string>

    /** Every test started has exactly one outcome recorded. */
    ghost predicate Valid()
      reads this
    {
      passes + |failures| == testsRun && Described(failures)
    }

    constructor (testCount: nat)
      ensures Valid() && this.testCount == testCount
      ensures testsRun == 0 && passes == 0 && failures == [] && log == []
    {
      this.testCount := testCount;
      testsRun := 0;
      passes := 0;
      failures := [];
      log := [];
    }

    /** `startTestRun` */
    method StartTestRun()
      modifies this
      ensures log == old(log) + [RunningLine(testCount)]
      ensures testsRun == old(testsRun) && passes == old(passes) && failures == old(failures)
    {
      log := log + [RunningLine(testCount)];
    }

    /** `startTest` */
    method StartTest(id: string)
      requires TestId(id)
      modifies this
      ensures testsRun == old(testsRun) + 1 && log == old(log) + [RunLine(Label(id))]
      ensures passes == old(passes) && failures == old(failures)
    {
      testsRun := testsRun + 1;
      log := log + [RunLine(Label(id))];
    }

    /** `addSuccess`: the only method that counts a pass. */
    method AddSuccess(id: string, elapsed: string)
      requires TestId(id)
      modifies this
      ensures passes == old(passes) + 1 && log == old(log) + [OkLine(Label(id), elapsed)]
      ensures testsRun == old(testsRun) && failures == old(failures)
    {
      passes := passes + 1;
      log := log + [OkLine(Label(id), elapsed)];
    }

    /** `addFailure`: the failure is recorded, and its error printed before the FAILED line. */
    method AddFailure(id: string, err: string, elapsed: string)
      requires TestId(id)
      modifies this
      ensures failures == old(failures) + [(id, err)]
      ensures log == old(log) + [err, FailedLine(Label(id), elapsed)]
      ensures testsRun == old(testsRun) && passes == old(passes)
    {
      failures := failures + [(id, err)];
      log := log + [failures[|failures| - 1].1, FailedLine(Label(id), elapsed)];
    }

    /** `addError`: an error counts as a failure. */
    method AddError(id: string, err: string, elapsed: string)
      requires TestId(id)
      modifies this
      ensures failures == old(failures) + [(id, err)]
      ensures log == old(log) + [err, FailedLine(Label(id), elapsed)]
      ensures testsRun == old(testsRun) && passes == old(passes)
    {
      AddFailure(id, err, elapsed);
    }

    /** One test as the runner drives it: started, then exactly one outcome. */
    method RunTest(id: string, outcome: Outcome, elapsed: string)
      requires Valid() && TestId(id)
      modifies this
      ensures Valid() && testsRun == old(testsRun) + 1
      ensures outcome.Success? ==> passes == old(passes) + 1 && failures == old(failures)
      ensures !outcome.Success? ==> passes == old(passes) && failures == old(failures) + [(id, outcome.err)]
    {
      StartTest(id);
      match outcome {
        case Success => AddSuccess(id, elapsed);
        case Failure(err) => AddFailure(id, err, elapsed);
        case Error(err) => AddError(id, err, elapsed);
      }
    }

    /** `printErrors`: the totals, then each failed test in order. */
    method PrintErrors(elapsed: string)
      requires Valid()
      modifies this
      ensures testsRun == old(testsRun) && passes == old(passes) && failures == old(failures)
      ensures log == old(log) + Report(testCount, passes, failures, elapsed)
    {
      var n := testCount;
      var fs := failures;
      var lines := [GREEN + "[==========]" + RESET + " " + Decimal(n) + " test" + Plural(n) + " ran (" + elapsed + "s)",
                    GREEN + "[  PASSED  ]" + RESET + " " + Decimal(passes) + " test" + Plural(passes)];
      if |fs| > 0 {
        var nf := |fs|;
        var listed := [];
        for i := 0 to |fs|
          invariant listed == Listing(fs[..i])
        {
          assert fs[..i + 1][..i] == fs[..i];
          listed := listed + [ListedLine(Label(fs[i].0))];
        }
        assert fs[..|fs|] == fs;
        lines := lines + ([RED + "[  FAILED  ]" + RESET + " " + Decimal(nf) + " test" + Plural(nf) + ", listed below:"] + listed);
      }
      log := log + lines;
    }
  }

  // ---------------------------------------------------------------------
  // The kernel decorator's command

  /** `TESTDIR`: where a kernel image is looked for, in this order. */
  const TESTDIR: seq<string> := ["o.x86_64/", "o.x86_64/tests/", "tests/"]

  /** The first of dirs holding the file, or |dirs| when none does. */
  function FirstFound(dirs: seq<string>, name: string, isFile: string -> bool): (k: nat)
    ensures k <= |dirs|
    ensures k < |dirs| ==> isFile(dirs[k] + name)
    ensures forall j :: 0 <= j < k ==> !isFile(dirs[j] + name)
  {
    if |dirs| == 0 || isFile(dirs[0] + name) then 0
    else 1 + FirstFound(dirs[1..], name, isFile)
  }

  /** `path(name)`: the first TESTDIR entry holding the file; None where `next` finds none and raises. */
  function ImagePath(name: string, isFile: string -> bool): Option<string>
  {
    var k := FirstFound(TESTDIR, name, isFile);
    if k < |TESTDIR| then Some(TESTDIR[k] + name) else None
  }

  /** A path is found exactly when some TESTDIR entry holds the file, and then it is the first such entry's. */
  lemma ImagePathResolves(name: string, isFile: string -> bool)
    ensures ImagePath(name, isFile).Some? <==>
      isFile(TESTDIR[0] + name) || isFile(TESTDIR[1] + name) || isFile(TESTDIR[2] + name)
    ensures isFile(TESTDIR[0] + name) ==> ImagePath(name, isFile) == Some(TESTDIR[0] + name)
    ensures !isFile(TESTDIR[0] + name) && isFile(TESTDIR[1] + name) ==>
      ImagePath(name, isFile) == Some(TESTDIR[1] + name)
    ensures !isFile(TESTDIR[0] + name) && !isFile(TESTDIR[1] + name) && isFile(TESTDIR[2] + name) ==>
      ImagePath(name, isFile) == Some(TESTDIR[2] + name)
  {
    var k := FirstFound(TESTDIR, name, isFile);
    assert k < 3 ==> isFile(TESTDIR[k] + name);
  }

  const MAKE_QEMU: string := "make qemu KERNEL="

  /**
   * The shell command `_wrap` runs for `@kernel(name, append=…, initrd=…)`;
   * None where an image is not found.
   */
  function Command(name: string, append: Option<string>, initrd: Option<string>, isFile: string -> bool): Option<string>
  {
    match ImagePath(name, isFile)
    case None => None
    case Some(kernel) =>
      var cmd := MAKE_QEMU + kernel;
      var cmd := if append.Some? then cmd + " APPEND=\"" + append.value + "\"" else cmd;
      match initrd
      case None => Some(cmd)
      case Some(image) =>
        match ImagePath(image, isFile)
        case None => None
        case Some(path) => Some(cmd + " INITRD=" + path)
  }

  /**
   * The command exists exactly when both images are found; it starts with
   * the kernel's path, the APPEND argument comes next when one is given,
   * and the INITRD argument ends it when one is given.
   */
  lemma CommandLayout(name: string, append: Option<string>, initrd: Option<string>, isFile: string -> bool)
    ensures Command(name, append, initrd, isFile).Some? <==>
      ImagePath(name, isFile).Some? && (initrd.Some? ==> ImagePath(initrd.value, isFile).Some?)
    ensures Command(name, append, initrd, isFile).Some? ==>
      var c := Command(name, append, initrd, isFile).value;
      var head := MAKE_QEMU + ImagePath(name, isFile).value;
      var arg := if append.Some? then " APPEND=\"" + append.value + "\"" else "";
      head + arg <= c &&
      (initrd.None? ==> c == head + arg) &&
      (initrd.Some? ==> c == head + arg + " INITRD=" + ImagePath(initrd.value, isFile).value)
  {
  }
}
