# A verified model of `rhead`, a small `head` in Rust

`rhead` prints the beginning of a file or of standard input: by default
the first 10 lines (`-n N`), or with `-c N` the first N bytes, each
printed as the character with that code point. This
project models its bounded emitter in Dafny and proves what it writes.

- **Line mode** (`print_lines`). The reader's lines are split as Rust's
  `BufRead::lines` splits them. Each line is printed with `println!` and a
  `u32` countdown stops the loop after N lines.
- **Byte mode** (`print_chars`). The raw bytes are walked with the same
  countdown. Each byte is printed as `byte as char`.
- **`main`**. A line count of 0 is refused first. Then a named file that
  does not open is refused. Then a byte count of 0 selects line mode, and
  any other byte count selects byte mode and ignores the line count.

The input is the `seq<byte>` the reader would deliver. Standard output is
the `seq<byte>` written to it, returned as a real out-parameter.

Files:
- `types.dfy`: `byte`, `u32`, the `'\n'` and `'\r'` constants, `Option` and `Min`.
- `utf8.dfy`: well-formed UTF-8, and the encoding of the code points
  U+0000..U+00FF that byte mode writes.
- `lines.dfy`: `BufRead::lines` as records and lines, with their laws.
- `head.dfy`: the two emitters as methods with loops, `main`'s decision
  as a function, and all of `main` after argument parsing as `Run`.
- `examples.dfy`: concrete runs stated as lemmas.

Where this program differs from the usual `head`, which copies `-c`
bytes verbatim and does not validate text, the model follows this program:
- **Byte mode is not verbatim.** `byte as char` turns a byte at or above
  0x80 into U+0080..U+00FF. `print!` then writes that as two UTF-8 bytes
  (0xC2 or 0xC3, then a continuation byte). Only ASCII input is copied
  unchanged (`Utf8.Utf8OfLatin1Ascii`).
- **Line mode writes `"\r\n"` as `"\n"`.** `BufRead::lines` removes the
  `'\n'` and then a `'\r'` in front of it, and `println!` adds back only
  `'\n'`. A final line without `'\n'` keeps a trailing `'\r'`
  (`HeadExamples.CarriageReturnKeptAtEnd`).
- **Malformed text stops line mode.** Lines are read into a `String`, so
  a line that is not well-formed UTF-8 makes `unwrap` panic. The lines
  before it stay written (`HeadExamples.PanicOnMalformedLine`). Standard
  `head` instead passes such bytes through.
- **Byte mode reads and prints one byte at a time.**

## Model

| member | source | states |
|---|---|---|
| `Head.PrintLines` | src/main.rs:28-38 | Writes `Terminated(Lines(input)[..k])`, with k = `LinesWritten(input, N)`: the first k lines in input order, each followed by exactly one `'\n'`. It panics exactly when k < min(N, L), i.e. when a line among the first min(N, L) is not UTF-8. The loop invariant `count == N - taken >= 1` proves `count -= 1` never underflows. |
| `Head.LinesWritten` | src/main.rs:31-37 | How many lines `print_lines` writes for N: the leading well-formed records among the first min(N, L). `ValidPrefix` fixes its value; `LinesWrittenOnText` shows it is min(N, L) on text; `PrintLines` writes exactly that many. |
| `Head.ValidPrefix` | src/main.rs:32-34 | The number of lines written before `unwrap` panics. It is at most m, every record before it is well-formed UTF-8, and the record at it is not, unless it equals m. This fixes the value uniquely. |
| `Head.LinesWrittenOnText` | src/main.rs:31-38 | On well-formed UTF-8 input, line mode writes exactly min(N, L) lines. Running out of input is not an error, and more than N lines stop after exactly N. |
| `Head.LinesWrittenNewlines` | src/main.rs:31-37 | Line mode writes exactly one `'\n'` per line written and no other, since no line contains `'\n'`. |
| `Head.PrintChars` | src/main.rs:41-51 | Writes `Utf8OfLatin1(input[..min(N, B)])`: one character per byte for the first min(N, B) bytes and no added newline. The countdown never underflows. |
| `Head.Decide` | src/main.rs:58-83 | A line count of 0 is rejected, even when the file would not open. Otherwise a file that does not open is rejected. Otherwise `chars == 0` selects line mode with `number`, and any non-zero `chars` selects byte mode with `chars`, whatever `number` is. Both modes get a count of at least 1. |
| `Head.Run` | src/main.rs:53-86 | Exits with failure and writes nothing exactly when the line count is 0 or the file does not open. Byte mode succeeds with `PrintChars`'s output. Line mode writes `PrintLines`'s output and panics only as `PrintLines` does. On well-formed UTF-8 input, every configuration that passes the checks succeeds. |
| `LineReader.Records` | src/main.rs:32 | The records successive `read_line` calls return, each through the first `'\n'` or to the end of the stream. `RecordsConcat` shows they put back together to the stream; `RecordsShape` fixes where each one ends; `LineCount` counts them. |
| `LineReader.Strip` | src/main.rs:32 | How `Lines::next` turns a record into a line: a final `"\n"` or `"\r\n"` is removed, nothing else (`StripShape`). |
| `LineReader.Lines` | src/main.rs:32 | The lines `reader.lines()` yields: each record of `Records`, in order, with `Strip` applied (`StripShape`, `RecordsConcat`, `RecordsShape`, `LinesHaveNoNewline`, `ReadPlainLine`). |
| `LineReader.Terminated` | src/main.rs:33 | What the `println!` calls write: each line, then one `'\n'`, in order. `LinesOfTerminated` reads it back as the same lines; `TerminatedNewlines` counts its `'\n'` bytes. |
| `LineReader.NewlineAt` | src/main.rs:32 | The position of the first `'\n'` of the stream, or its length when there is none. |
| `LineReader.RecordLen` | src/main.rs:32 | One `read_line` takes at least one byte of a non-empty stream. It stops just after the first `'\n'`, or takes everything when there is none. |
| `LineReader.StripShape` | src/main.rs:32-33 | Turning a record into a line removes exactly a final `"\n"` or `"\r\n"`, and leaves a record without a final `'\n'` unchanged. |
| `LineReader.RecordsConcat` | src/main.rs:32 | The records put back together are the stream: splitting loses and invents no byte. |
| `LineReader.RecordsShape` | src/main.rs:32 | Every record is non-empty and holds `'\n'` only as its last byte. Every record but the last ends in `'\n'`. |
| `LineReader.LinesHaveNoNewline` | src/main.rs:32 | No line contains `'\n'`. |
| `LineReader.LineCount` | src/main.rs:32 | The number of lines is the number of `'\n'` bytes, plus one for a final segment without a terminator. So empty input has no lines. |
| `LineReader.RecordsValid` | src/main.rs:32-33 | If the whole stream is well-formed UTF-8, so is every record. |
| `LineReader.ReadPlainLine` | src/main.rs:32 | Reading `l + "\n" + t`, where l has no `'\n'` and no final `'\r'`, yields l followed by the lines of t. |
| `LineReader.LinesOfTerminated` | src/main.rs:32-33 | Reading back what `println!` wrote for such lines gives the same lines. |
| `LineReader.TerminatedNewlines` | src/main.rs:33 | `println!` of lines without `'\n'` writes exactly one `'\n'` per line. |
| `Utf8.ValidUtf8` | src/main.rs:33 | The check behind the `unwrap` panic: the line is a run of well-formed UTF-8 sequences as `FirstSeqLen` delimits them. `ValidSplitAfterAscii` and `RecordsValid` carry it from the stream to its records. |
| `Utf8.FirstSeqLen` | src/main.rs:32-33 | The length of the well-formed UTF-8 sequence at the start of a line, by the ranges of Table 3-7 of the Unicode Standard, or 0 when there is none. It is 1 exactly for an ASCII byte, and the rest of a longer sequence is continuation bytes. |
| `Utf8.ValidSplitAfterAscii` | src/main.rs:32-33 | Cutting well-formed UTF-8 just after an ASCII byte, such as `'\n'`, leaves two well-formed halves. |
| `Utf8.Utf8OfLatin1` | src/main.rs:44-45 | What `print!("{}", byte as char)` writes for the bytes in order: the UTF-8 text of U+00XX per byte. `Latin1OfUtf8RoundTrip` inverts it; `Utf8OfLatin1IsValid`, `Utf8OfLatin1Ascii` and `Utf8OfLatin1Length` describe it. |
| `Utf8.Utf8OfLatin1Char` | src/main.rs:45 | `byte as char` is written as the byte itself below 0x80. Otherwise it is written as two bytes: 0xC2 or 0xC3, then a continuation byte. |
| `Utf8.Utf8OfLatin1Append` | src/main.rs:44-45 | Encoding the bytes one by one, as the loop does, equals encoding them all at once. |
| `Utf8.Latin1OfUtf8RoundTrip` | src/main.rs:44-45 | Decoding byte mode's output gives back the input bytes: each written character's code point equals its byte value. |
| `Utf8.Utf8OfLatin1IsValid` | src/main.rs:45 | Byte mode always writes well-formed UTF-8. |
| `Utf8.Utf8OfLatin1Ascii` | src/main.rs:45 | The output equals the input exactly when every byte is below 0x80. |
| `Utf8.Utf8OfLatin1Length` | src/main.rs:45 | The output has between B and 2B bytes for B input bytes. |
| `HeadExamples.ThreeWordsLines` | src/main.rs:32 | `"alpha\nbeta\ngamma"` has the three lines `alpha`, `beta` and `gamma`. |
| `HeadExamples.TwoOfThreeLines` | src/main.rs:28-38 | With N = 2 on that input, line mode writes `"alpha\nbeta\n"` and does not panic. |
| `HeadExamples.PanicOnMalformedLine` | src/main.rs:31-38 | With N = 5 on `"a\n\xFF\nb"` (three lines), line mode writes only `"a\n"`: one line, fewer than min(5, 3), so it panics on the second. |
| `HeadExamples.FiveBytesOfHelloWorld` | src/main.rs:41-51 | With N = 5 on `"hello world"`, byte mode writes `"hello"` and adds no newline. |
| `HeadExamples.CarriageReturnKeptAtEnd` | src/main.rs:32 | `"a\r\nb\r"` has the lines `a` and `b\r`. |
| `HeadExamples.HighByteReencoded` | src/main.rs:45 | Byte mode writes the byte 0xE9 as the two bytes 0xC3 0xA9. |

## Left out

- Argument parsing by `clap` (src/main.rs:13-26): the default of 10, the
  default 0 for `chars`, and the conflict between `-n` and `-c`. This is a
  foreign library. The model takes only its results, `number` and `chars`,
  as any two `u32` values.
- Opening the file and locking standard input (src/main.rs:66-78). This is
  I/O. It is reduced to `Source`: standard input, or a named file that
  opens or does not. The stream's contents are a parameter.
- Read errors from the device, which `unwrap` turns into a panic
  (src/main.rs:33, src/main.rs:45). This is I/O. Only the panic on a line
  that is not UTF-8 is modelled, because it follows from the bytes alone.
- Head.Run: failures to write to standard output, such as a closed pipe,
  are not modelled. `println!` (src/main.rs:33) and `print!`
  (src/main.rs:45) panic on them, so the real program can end in a panic
  where `Run` promises success. This is I/O.
- The messages written to standard error (src/main.rs:62, src/main.rs:71).
  Also left out: the buffering and flushing of standard output, and the
  internal buffering of `BufReader`. This is I/O. The model states the
  bytes written, in order.
- The exit code of a panic. It is modelled as its own `Exit.Panic`
  outcome, not as a specific number.
