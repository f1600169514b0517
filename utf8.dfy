/**
 * The part of UTF-8 that `head` relies on.
 *
 * Line mode reads each line into a Rust `String`, so a line that is not
 * well-formed UTF-8 makes the read fail; byte mode prints each byte as the
 * `char` with the same code point, so what reaches standard output is the
 * UTF-8 encoding of a code point below U+0100.
 */
module Utf8 {
  import opened Types

  /** A continuation byte, 10xxxxxx. */
  predicate IsCont(b: byte) {
    0x80 <= b <= 0xBF
  }

  /** Length 3 if the next two bytes are a legal tail whose first byte lies in lo..hi, else 0. */
  function Tail3(s: seq<byte>, lo: byte, hi: byte): (n: nat)
    requires 0x80 <= lo <= hi <= 0xBF
    ensures n == 0 || n == 3
    ensures n == 3 ==> |s| >= 3 && IsCont(s[1]) && IsCont(s[2])
  {
    if |s| >= 3 && lo <= s[1] <= hi && IsCont(s[2]) then 3 else 0
  }

  /** Length 4 if the next three bytes are a legal tail whose first byte lies in lo..hi, else 0. */
  function Tail4(s: seq<byte>, lo: byte, hi: byte): (n: nat)
    requires 0x80 <= lo <= hi <= 0xBF
    ensures n == 0 || n == 4
    ensures n == 4 ==> |s| >= 4 && IsCont(s[1]) && IsCont(s[2]) && IsCont(s[3])
  {
    if |s| >= 4 && lo <= s[1] <= hi && IsCont(s[2]) && IsCont(s[3]) then 4 else 0
  }

  /**
   * The length of the well-formed UTF-8 sequence that starts `s`, or 0 when
   * `s` does not start with one (the ranges of the Unicode Standard, Table 3-7:
   * no overlong forms, no surrogates, nothing above U+10FFFF).
   */
  function FirstSeqLen(s: seq<byte>): (n: nat)
    requires s != []
    ensures n <= |s| && n <= 4
    ensures n == 1 <==> s[0] < 0x80
    ensures forall i :: 1 <= i < n ==> IsCont(s[i])
  {
    var b := s[0];
    if b < 0x80 then 1
    else if 0xC2 <= b <= 0xDF then (if |s| >= 2 && IsCont(s[1]) then 2 else 0)
    else if b == 0xE0 then Tail3(s, 0xA0, 0xBF)
    else if 0xE1 <= b <= 0xEC || 0xEE <= b <= 0xEF then Tail3(s, 0x80, 0xBF)
    else if b == 0xED then Tail3(s, 0x80, 0x9F)
    else if b == 0xF0 then Tail4(s, 0x90, 0xBF)
    else if 0xF1 <= b <= 0xF3 then Tail4(s, 0x80, 0xBF)
    else if b == 0xF4 then Tail4(s, 0x80, 0x8F)
    else 0
  }

  /** `s` is a sequence of well-formed UTF-8 sequences. */
  predicate ValidUtf8(s: seq<byte>)
    decreases |s|
  {
    s == [] || (FirstSeqLen(s) > 0 && ValidUtf8(s[FirstSeqLen(s)..]))
  }

  /** The first sequence of `s` depends only on the bytes it covers. */
  lemma FirstSeqLenPrefix(s: seq<byte>, t: seq<byte>)
    requires s != [] && FirstSeqLen(s) > 0
    requires |t| >= FirstSeqLen(s) && t[..FirstSeqLen(s)] == s[..FirstSeqLen(s)]
    ensures FirstSeqLen(t) == FirstSeqLen(s)
  {
    var n := FirstSeqLen(s);
    assert t[0] == s[0] by { assert t[..n][0] == s[..n][0]; }
    if n >= 2 { assert t[1] == s[1] by { assert t[..n][1] == s[..n][1]; } }
    if n >= 3 { assert t[2] == s[2] by { assert t[..n][2] == s[..n][2]; } }
    if n >= 4 { assert t[3] == s[3] by { assert t[..n][3] == s[..n][3]; } }
  }

  /**
   * Cutting well-formed UTF-8 just after an ASCII byte leaves two well-formed
   * halves: an ASCII byte is never inside a multi-byte sequence.
   */
  lemma {:induction false} ValidSplitAfterAscii(a: seq<byte>, b: seq<byte>)
    requires a != [] && a[|a| - 1] < 0x80
    requires ValidUtf8(a + b)
    ensures ValidUtf8(a) && ValidUtf8(b)
    decreases |a|
  {
    var s := a + b;
    var n := FirstSeqLen(s);
    if |a| == 1 {
      assert s[0] == a[0];
      assert n == 1;
      assert s[1..] == b;
      assert a[1..] == [];
    } else {
      assert s[|a| - 1] == a[|a| - 1];
      assert n < |a|;
      assert a[..n] == s[..n];
      FirstSeqLenPrefix(s, a);
      assert s[n..] == a[n..] + b;
      ValidSplitAfterAscii(a[n..], b);
    }
  }

  /** ASCII text is well-formed UTF-8. */
  lemma {:induction false} AsciiIsValid(s: seq<byte>)
    requires forall i :: 0 <= i < |s| ==> s[i] < 0x80
    ensures ValidUtf8(s)
    decreases |s|
  {
    if s != [] {
      assert forall i :: 0 <= i < |s| - 1 ==> s[1..][i] == s[i + 1];
      AsciiIsValid(s[1..]);
    }
  }

  /**
   * The UTF-8 encoding of the code point U+00XX for a byte value XX:
   * what Rust writes for `byte as char`.
   */
  function Utf8OfLatin1Char(b: byte): (r: seq<byte>)
    ensures b < 0x80 ==> r == [b]
    ensures b >= 0x80 ==> |r| == 2 && (r[0] == 0xC2 || r[0] == 0xC3) && IsCont(r[1])
  {
    if b < 0x80 then [b] else [0xC0 + b / 64, 0x80 + b % 64]
  }

  /** The UTF-8 text of the characters `b as char` for each byte `b` of `bs`, in order. */
  function Utf8OfLatin1(bs: seq<byte>): seq<byte>
  {
    if bs == [] then [] else Utf8OfLatin1Char(bs[0]) + Utf8OfLatin1(bs[1..])
  }

  /**
   * The inverse of `Utf8OfLatin1`: reads UTF-8 text made only of code points
   * below U+0100 back into the byte values of those code points.
   */
  function Latin1OfUtf8(s: seq<byte>): (r: Option<seq<byte>>)
    decreases |s|
  {
    if s == [] then Some([])
    else if s[0] < 0x80 then
      match Latin1OfUtf8(s[1..])
      case Some(rest) => Some([s[0]] + rest)
      case None => None
    else if (s[0] == 0xC2 || s[0] == 0xC3) && |s| >= 2 && IsCont(s[1]) then
      match Latin1OfUtf8(s[2..])
      case Some(rest) => Some([(s[0] - 0xC0) * 64 + (s[1] - 0x80)] + rest)
      case None => None
    else None
  }

  /** Encoding distributes over concatenation: the emitter may encode byte by byte. */
  lemma {:induction false} Utf8OfLatin1Append(a: seq<byte>, b: seq<byte>)
    ensures Utf8OfLatin1(a + b) == Utf8OfLatin1(a) + Utf8OfLatin1(b)
    decreases |a|
  {
    if a != [] {
      assert (a + b)[0] == a[0];
      assert (a + b)[1..] == a[1..] + b;
      Utf8OfLatin1Append(a[1..], b);
    } else {
      assert a + b == b;
    }
  }

  /** Byte mode's output has one character per input byte, each carrying that byte's value. */
  lemma {:induction false} Latin1OfUtf8RoundTrip(bs: seq<byte>)
    ensures Latin1OfUtf8(Utf8OfLatin1(bs)) == Some(bs)
    decreases |bs|
  {
    if bs != [] {
      var e := Utf8OfLatin1Char(bs[0]);
      var s := Utf8OfLatin1(bs);
      Latin1OfUtf8RoundTrip(bs[1..]);
      if bs[0] < 0x80 {
        assert s[0] == bs[0];
        assert s[1..] == Utf8OfLatin1(bs[1..]);
        assert [bs[0]] + bs[1..] == bs;
      } else {
        assert s[0] == e[0] && s[1] == e[1];
        assert s[2..] == Utf8OfLatin1(bs[1..]);
        assert (s[0] - 0xC0) * 64 + (s[1] - 0x80) == bs[0];
        assert [bs[0]] + bs[1..] == bs;
      }
    }
  }

  /** The encoding of one character is a single well-formed sequence. */
  lemma Utf8OfLatin1CharIsSeq(b: byte)
    ensures FirstSeqLen(Utf8OfLatin1Char(b)) == |Utf8OfLatin1Char(b)|
  {
  }

  /** Byte mode always writes well-formed UTF-8. */
  lemma {:induction false} Utf8OfLatin1IsValid(bs: seq<byte>)
    ensures ValidUtf8(Utf8OfLatin1(bs))
    decreases |bs|
  {
    if bs != [] {
      var e := Utf8OfLatin1Char(bs[0]);
      var s := Utf8OfLatin1(bs);
      Utf8OfLatin1IsValid(bs[1..]);
      Utf8OfLatin1CharIsSeq(bs[0]);
      assert s[..|e|] == e;
      FirstSeqLenPrefix(e, s);
      assert s[|e|..] == Utf8OfLatin1(bs[1..]);
    }
  }

  /** Bytes below 0x80 are copied verbatim; only the others change. */
  lemma {:induction false} Utf8OfLatin1Ascii(bs: seq<byte>)
    ensures (forall i :: 0 <= i < |bs| ==> bs[i] < 0x80) <==> Utf8OfLatin1(bs) == bs
    decreases |bs|
  {
    if bs != [] {
      Utf8OfLatin1Ascii(bs[1..]);
      Utf8OfLatin1Length(bs[1..]);
      if bs[0] < 0x80 {
        assert forall i :: 1 <= i < |bs| ==> bs[i] == bs[1..][i - 1];
        assert bs == [bs[0]] + bs[1..];
      } else {
        assert |Utf8OfLatin1(bs)| > |bs|;
      }
    }
  }

  /** Encoding never shrinks the text: each byte becomes one or two. */
  lemma {:induction false} Utf8OfLatin1Length(bs: seq<byte>)
    ensures |bs| <= |Utf8OfLatin1(bs)| <= 2 * |bs|
    decreases |bs|
  {
    if bs != [] {
      Utf8OfLatin1Length(bs[1..]);
    }
  }
}
