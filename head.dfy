/**
 * The bounded emitter of `head`: line mode (`print_lines`), byte mode
 * (`print_chars`) and the checks in `main` that choose between them.
 *
 * The input stream is the sequence of bytes the reader would deliver;
 * standard output is the sequence of bytes written to it.
 */
module Head {
  import opened Types
  import opened Utf8
  import opened LineReader

  /** How an emitter ends: normally, or in the panic of `unwrap` on a line that is not UTF-8. */
  datatype Status = Completed | Panicked

  /**
   * The number of leading records, among the first `m`, that are well-formed
   * UTF-8: the lines written before a malformed one stops line mode.
   */
  function ValidPrefix(recs: seq<seq<byte>>, m: nat): (k: nat)
    requires m <= |recs|
    ensures k <= m
    ensures forall i :: 0 <= i < k ==> ValidUtf8(recs[i])
    ensures k < m ==> !ValidUtf8(recs[k])
  {
    if m == 0 || !ValidUtf8(recs[0]) then 0 else 1 + ValidPrefix(recs[1..], m - 1)
  }

  /** The number of lines line mode writes when asked for `n` lines of `input`. */
  function LinesWritten(input: seq<byte>, n: nat): nat
  {
    ValidPrefix(Records(input), Min(n, |Records(input)|))
  }

  /** The contract of `ValidPrefix` pins its value down. */
  lemma ValidPrefixIs(recs: seq<seq<byte>>, m: nat, k: nat)
    requires k <= m <= |recs|
    requires forall i :: 0 <= i < k ==> ValidUtf8(recs[i])
    requires k < m ==> !ValidUtf8(recs[k])
    ensures ValidPrefix(recs, m) == k
  {
  }

  /** Reading one record from what is left of the stream yields the next record of the whole stream. */
  lemma ReadRecord(recs: seq<seq<byte>>, taken: nat, rest: seq<byte>)
    requires rest != [] && taken <= |recs| && recs[taken..] == Records(rest)
    ensures taken < |recs|
    ensures recs[taken] == rest[..RecordLen(rest)]
    ensures recs[taken + 1..] == Records(rest[RecordLen(rest)..])
  {
    assert recs[taken..][0] == recs[taken];
    assert recs[taken + 1..] == recs[taken..][1..];
  }

  /** Writing the next line extends the output by that line and `'\n'`. */
  lemma WriteNextLine(input: seq<byte>, taken: nat)
    requires taken < |Records(input)|
    ensures Terminated(Lines(input)[..taken + 1])
         == Terminated(Lines(input)[..taken]) + Strip(Records(input)[taken]) + [NL]
  {
    assert Lines(input)[..taken + 1] == Lines(input)[..taken] + [Strip(Records(input)[taken])];
    TerminatedSnoc(Lines(input)[..taken], Strip(Records(input)[taken]));
  }

  /**
   * Line mode: writes the lines of `input` one by one, each followed by
   * `'\n'`, counting down from `numLines` and stopping when the count
   * reaches 0 or the stream is exhausted. A line that is not UTF-8 panics
   * before it is written.
   */
  method PrintLines(input: seq<byte>, numLines: u32) returns (stdout: seq<byte>, status: Status)
    requires numLines >= 1
    ensures var k := LinesWritten(input, numLines);
      && stdout == Terminated(Lines(input)[..k])
      && (status == Panicked <==> k < Min(numLines, |Lines(input)|))
  {
    ghost var recs := Records(input);
    var count: u32 := numLines;
    var rest := input;
    ghost var taken: nat := 0;
    stdout := [];
    status := Completed;
    while rest != []
      invariant taken <= |recs| && recs[taken..] == Records(rest)
      invariant count == numLines - taken && count >= 1
      invariant forall i :: 0 <= i < taken ==> ValidUtf8(recs[i])
      invariant stdout == Terminated(Lines(input)[..taken])
      decreases |rest|
    {
      var n := RecordLen(rest);
      var record := rest[..n];
      ReadRecord(recs, taken, rest);
      rest := rest[n..];
      if !ValidUtf8(record) {
        status := Panicked;
        ValidPrefixIs(recs, Min(numLines, |recs|), taken);
        return;
      }
      WriteNextLine(input, taken);
      stdout := stdout + Strip(record) + [NL];
      count := count - 1;
      taken := taken + 1;
      if count == 0 {
        ValidPrefixIs(recs, Min(numLines, |recs|), taken);
        break;
      }
    }
    ValidPrefixIs(recs, Min(numLines, |recs|), taken);
  }

  /** On well-formed UTF-8 text, line mode writes exactly the first min(n, L) lines. */
  lemma LinesWrittenOnText(input: seq<byte>, n: nat)
    requires ValidUtf8(input)
    ensures LinesWritten(input, n) == Min(n, |Lines(input)|)
  {
    var recs := Records(input);
    var m := Min(n, |recs|);
    var k := ValidPrefix(recs, m);
    if k < m {
      RecordsValid(input, k);
    }
  }

  /** Line mode writes exactly one `'\n'` per line written, and no other. */
  lemma LinesWrittenNewlines(input: seq<byte>, n: nat)
    ensures var k := LinesWritten(input, n);
      CountNL(Terminated(Lines(input)[..k])) == k
  {
    var k := LinesWritten(input, n);
    var ls := Lines(input)[..k];
    forall i | 0 <= i < |ls|
      ensures forall j :: 0 <= j < |ls[i]| ==> ls[i][j] != NL
    {
      LinesHaveNoNewline(input, i);
    }
    TerminatedNewlines(ls);
  }

  /**
   * Byte mode: writes the bytes of `input` one by one as the characters
   * with those code points, counting down from `numChars` and stopping when
   * the count reaches 0 or the stream is exhausted. No newline is added.
   */
  method PrintChars(input: seq<byte>, numChars: u32) returns (stdout: seq<byte>)
    requires numChars >= 1
    ensures stdout == Utf8OfLatin1(input[..Min(numChars, |input|)])
  {
    var count: u32 := numChars;
    var i := 0;
    stdout := [];
    while i < |input|
      invariant i <= |input|
      invariant count == numChars - i && count >= 1
      invariant stdout == Utf8OfLatin1(input[..i])
    {
      assert input[..i + 1] == input[..i] + [input[i]];
      Utf8OfLatin1Append(input[..i], [input[i]]);
      stdout := stdout + Utf8OfLatin1Char(input[i]);
      i := i + 1;
      count := count - 1;
      if count == 0 {
        return;
      }
    }
    assert input[..i] == input;
  }

  /** Where the input comes from: standard input, or a named file that opens or not. */
  datatype Source = Stdin | NamedFile(opens: bool)

  /** Why `main` gives up before emitting anything. */
  datatype ConfigError = InvalidLineCount | OpenFailed

  /** What `main` decides to do. */
  datatype Mode = Reject(error: ConfigError) | LineMode(lines: u32) | ByteMode(chars: u32)

  /**
   * The checks of `main`: a line count of 0 is refused before the file is
   * opened; then a file that does not open is refused; then a byte count of
   * 0 selects line mode and any other selects byte mode, ignoring the line count.
   */
  function Decide(number: u32, chars: u32, source: Source): (m: Mode)
    ensures m == Reject(InvalidLineCount) <==> number == 0
    ensures m == Reject(OpenFailed) <==> number != 0 && source == NamedFile(false)
    ensures m.LineMode? <==> number != 0 && source != NamedFile(false) && chars == 0
    ensures m.ByteMode? <==> number != 0 && source != NamedFile(false) && chars != 0
    ensures m.LineMode? ==> m.lines == number >= 1
    ensures m.ByteMode? ==> m.chars == chars >= 1
  {
    if number == 0 then Reject(InvalidLineCount)
    else if source == NamedFile(false) then Reject(OpenFailed)
    else if chars == 0 then LineMode(number)
    else ByteMode(chars)
  }

  /** The exit status of the process; `Panic` is the status of a panicking `unwrap`. */
  datatype Exit = Success | Failure | Panic

  /**
   * The whole of `main` once the arguments are parsed: decide, run the chosen
   * emitter on the stream, and exit with success unless the emitter panicked.
   */
  method Run(number: u32, chars: u32, source: Source, input: seq<byte>) returns (exit: Exit, stdout: seq<byte>)
    ensures (number == 0 || source == NamedFile(false)) <==> exit == Failure
    ensures exit == Failure ==> stdout == []
    ensures Decide(number, chars, source) == ByteMode(chars) ==>
      exit == Success && stdout == Utf8OfLatin1(input[..Min(chars, |input|)])
    ensures Decide(number, chars, source) == LineMode(number) ==>
      && stdout == Terminated(Lines(input)[..LinesWritten(input, number)])
      && (exit == Panic <==> LinesWritten(input, number) < Min(number, |Lines(input)|))
    ensures number != 0 && source != NamedFile(false) && ValidUtf8(input) ==> exit == Success
  {
    match Decide(number, chars, source)
    case Reject(_) =>
      exit, stdout := Failure, [];
    case LineMode(n) =>
      var status;
      stdout, status := PrintLines(input, n);
      exit := if status == Panicked then Panic else Success;
      if ValidUtf8(input) {
        LinesWrittenOnText(input, n);
      }
    case ByteMode(n) =>
      stdout := PrintChars(input, n);
      exit := Success;
  }
}
