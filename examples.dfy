/** Concrete runs of the model, written out as lemmas. */
module HeadExamples {
  import opened Types
  import opened Utf8
  import opened LineReader
  import opened Head

  /** The words "alpha", "beta" and "gamma" in ASCII. */
  const Alpha: seq<byte> := [0x61, 0x6C, 0x70, 0x68, 0x61]
  const Beta: seq<byte> := [0x62, 0x65, 0x74, 0x61]
  const Gamma: seq<byte> := [0x67, 0x61, 0x6D, 0x6D, 0x61]

  /** `"alpha\nbeta\ngamma"`: three lines, the last one unterminated. */
  const ThreeWords: seq<byte> := Alpha + [NL] + (Beta + [NL] + Gamma)

  lemma ThreeWordsLines()
    ensures Lines(ThreeWords) == [Alpha, Beta, Gamma]
  {
    assert NewlineAt(Gamma) == 5;
    assert Gamma[..5] == Gamma && Gamma[5..] == [];
    assert Lines(Gamma) == [Gamma];
    ReadPlainLine(Beta, Gamma);
    ReadPlainLine(Alpha, Beta + [NL] + Gamma);
  }

  lemma ThreeWordsIsText()
    ensures ValidUtf8(ThreeWords)
  {
    AsciiIsValid(ThreeWords);
  }

  /** Two of the three lines asked for: the first two, each with its `'\n'`, and no panic. */
  lemma TwoOfThreeLines()
    ensures LinesWritten(ThreeWords, 2) == 2
    ensures Terminated(Lines(ThreeWords)[..2]) == Alpha + [NL] + Beta + [NL]
  {
    ThreeWordsLines();
    ThreeWordsIsText();
    LinesWrittenOnText(ThreeWords, 2);
    assert Lines(ThreeWords)[..2] == [Alpha] + [Beta];
    TerminatedSnoc([Alpha], Beta);
    TerminatedSnoc([], Alpha);
    assert [] + [Alpha] == [Alpha];
  }

  /** `"a\r\nb\r"`: the `'\r'` goes only where a `'\n'` follows it. */
  lemma CarriageReturnKeptAtEnd()
    ensures Lines([0x61, CR, NL, 0x62, CR]) == [[0x61], [0x62, CR]]
  {
    var s: seq<byte> := [0x61, CR, NL, 0x62, CR];
    var r1: seq<byte> := [0x61, CR, NL];
    var r2: seq<byte> := [0x62, CR];
    assert s == r1 + r2;
    assert s[1..][1..] == s[2..] && s[2..][0] == NL;
    assert NewlineAt(s[1..]) == 1;
    assert NewlineAt(s) == 2;
    assert s[..3] == r1 && s[3..] == r2;
    assert r2[1..][1..] == [];
    assert NewlineAt(r2) == 2;
    assert r2[..2] == r2 && r2[2..] == [];
    assert Records(r2) == [r2];
    assert Records(s) == [r1, r2];
    assert r1[..2] == [0x61, CR] && [0x61, CR][..1] == [0x61];
    assert Strip(r1) == [0x61];
  }

  /** `"a\n\xFF\nb"`: the second line is not UTF-8. */
  const Malformed: seq<byte> := [0x61, NL, 0xFF, NL, 0x62]

  /**
   * Five lines asked for, three available: line mode writes `"a\n"` and then
   * stops on the malformed second line, fewer than min(5, 3) lines, so it panics.
   */
  lemma PanicOnMalformedLine()
    ensures |Lines(Malformed)| == 3
    ensures LinesWritten(Malformed, 5) == 1 < Min(5, |Lines(Malformed)|)
    ensures Terminated(Lines(Malformed)[..1]) == [0x61, NL]
  {
    var r1: seq<byte> := [0x61, NL];
    var r2: seq<byte> := [0xFF, NL];
    var r3: seq<byte> := [0x62];
    var s := Malformed;
    assert s == r1 + r2 + r3;
    assert NewlineAt(s) == 1;
    assert s[..2] == r1 && s[2..] == r2 + r3;
    assert NewlineAt(r2 + r3) == 1;
    assert (r2 + r3)[..2] == r2 && (r2 + r3)[2..] == r3;
    assert NewlineAt(r3) == 1;
    assert r3[..1] == r3 && r3[1..] == [];
    assert Records(r3) == [r3];
    assert Records(r2 + r3) == [r2, r3];
    var recs := Records(s);
    assert recs == [r1, r2, r3];
    AsciiIsValid(r1);
    assert FirstSeqLen(r2) == 0;
    ValidPrefixIs(recs, 3, 1);
    assert r1[..1] == [0x61];
    assert Lines(s)[..1] == [[0x61]];
    TerminatedSnoc([], [0x61]);
    assert [] + [[0x61]] == [[0x61]];
  }

  /** `"hello"` and `"hello world"` in ASCII. */
  const Hello: seq<byte> := [0x68, 0x65, 0x6C, 0x6C, 0x6F]
  const HelloWorld: seq<byte> := Hello + [0x20, 0x77, 0x6F, 0x72, 0x6C, 0x64]

  /** Five bytes of `"hello world"` asked for: `"hello"`, with no newline added. */
  lemma FiveBytesOfHelloWorld()
    ensures Utf8OfLatin1(HelloWorld[..Min(5, |HelloWorld|)]) == Hello
  {
    assert HelloWorld[..5] == Hello;
    Utf8OfLatin1Ascii(Hello);
  }

  /** Byte mode writes a byte at or above 0x80 as two bytes. */
  lemma HighByteReencoded()
    ensures Utf8OfLatin1([0x68, 0xE9]) == [0x68, 0xC3, 0xA9]
  {
  }

  /** The two example runs, through the emitters themselves. */
  method ExampleRuns()
  {
    var out, st := PrintLines(ThreeWords, 2);
    TwoOfThreeLines();
    assert out == Alpha + [NL] + Beta + [NL] && st == Completed;
    var o := PrintChars(HelloWorld, 5);
    FiveBytesOfHelloWorld();
    assert o == Hello;
  }
}
