/**
 * Splitting a byte stream into lines the way Rust's `BufRead::lines` does.
 *
 * Each step reads one record with `read_line`: every byte up to and including
 * the first `'\n'`, or the rest of the stream when no `'\n'` is left. The
 * line handed out is the record without its `'\n'`, and without the `'\r'`
 * just before it; a final record that has no `'\n'` is a line as it stands.
 * An empty stream has no lines.
 */
module LineReader {
  import opened Types
  import opened Utf8

  /** Position of the first `'\n'` in `s`, or `|s|` when there is none. */
  function NewlineAt(s: seq<byte>): (j: nat)
    ensures j <= |s|
    ensures forall k :: 0 <= k < j ==> s[k] != NL
    ensures j < |s| ==> s[j] == NL
  {
    if s == [] || s[0] == NL then 0 else 1 + NewlineAt(s[1..])
  }

  /** How many bytes one `read_line` consumes from a stream that is not exhausted. */
  function RecordLen(s: seq<byte>): (n: nat)
    requires s != []
    ensures 0 < n <= |s|
    ensures forall k :: 0 <= k < n - 1 ==> s[k] != NL
    ensures n < |s| ==> s[n - 1] == NL
  {
    var j := NewlineAt(s);
    if j < |s| then j + 1 else |s|
  }

  /** The records `read_line` returns one after another until the stream is exhausted. */
  function Records(s: seq<byte>): seq<seq<byte>>
    decreases |s|
  {
    if s == [] then [] else [s[..RecordLen(s)]] + Records(s[RecordLen(s)..])
  }

  /** A record turned into a line: drop a final `'\n'`, then a `'\r'` before it. */
  function Strip(rec: seq<byte>): seq<byte>
  {
    if rec != [] && rec[|rec| - 1] == NL then
      var l := rec[..|rec| - 1];
      if l != [] && l[|l| - 1] == CR then l[..|l| - 1] else l
    else rec
  }

  /**
   * Stripping removes exactly a final `"\n"` or `"\r\n"`, and leaves a
   * record without a final `'\n'` as it is.
   */
  lemma StripShape(rec: seq<byte>)
    ensures var line := Strip(rec);
      && (rec == line || rec == line + [NL] || rec == line + [CR, NL])
      && ((rec != [] && rec[|rec| - 1] == NL) <==> rec != line)
      && (|rec| >= 2 && rec[|rec| - 2..] == [CR, NL] <==> rec == line + [CR, NL])
  {
    if |rec| >= 2 && rec == Strip(rec) + [CR, NL] {
      assert rec[|rec| - 2..] == [CR, NL];
    }
  }

  /** `Strip` applied to each record, in order. */
  function StripAll(recs: seq<seq<byte>>): seq<seq<byte>>
  {
    seq(|recs|, i requires 0 <= i < |recs| => Strip(recs[i]))
  }

  /** The lines `BufRead::lines` yields over the stream `s`. */
  function Lines(s: seq<byte>): seq<seq<byte>>
  {
    StripAll(Records(s))
  }

  /** The records glued back together. */
  function Concat(recs: seq<seq<byte>>): seq<byte>
  {
    if recs == [] then [] else recs[0] + Concat(recs[1..])
  }

  /** What `println!` of each line writes: the line, then one `'\n'`. */
  function Terminated(ls: seq<seq<byte>>): seq<byte>
  {
    if ls == [] then [] else Terminated(ls[..|ls| - 1]) + ls[|ls| - 1] + [NL]
  }

  /** The number of `'\n'` bytes in `s`. */
  function CountNL(s: seq<byte>): nat
  {
    if s == [] then 0 else (if s[0] == NL then 1 else 0) + CountNL(s[1..])
  }

  /** Splitting loses and invents nothing: the records are the stream, cut into pieces. */
  lemma {:induction false} RecordsConcat(s: seq<byte>)
    ensures Concat(Records(s)) == s
    decreases |s|
  {
    if s != [] {
      var n := RecordLen(s);
      var first, rest := s[..n], s[n..];
      assert Records(s) == [first] + Records(rest);
      RecordsConcat(rest);
      ConcatCons(first, Records(rest));
      assert first + rest == s;
    }
  }

  lemma ConcatCons(x: seq<byte>, xs: seq<seq<byte>>)
    ensures Concat([x] + xs) == x + Concat(xs)
  {
    assert ([x] + xs)[1..] == xs;
  }

  /**
   * Every record is non-empty, holds `'\n'` only as its last byte, and every
   * record but the last ends in `'\n'`.
   */
  lemma {:induction false} RecordsShape(s: seq<byte>, i: nat)
    requires i < |Records(s)|
    ensures var r := Records(s)[i];
      && r != []
      && (forall k :: 0 <= k < |r| - 1 ==> r[k] != NL)
      && (i < |Records(s)| - 1 ==> r[|r| - 1] == NL)
    decreases |s|
  {
    var n := RecordLen(s);
    if i > 0 {
      RecordsShape(s[n..], i - 1);
      assert Records(s)[i] == Records(s[n..])[i - 1];
    } else if |Records(s)| > 1 {
      assert s[n..] != [];
    }
  }

  /** No line contains `'\n'`. */
  lemma LinesHaveNoNewline(s: seq<byte>, i: nat)
    requires i < |Lines(s)|
    ensures forall k :: 0 <= k < |Lines(s)[i]| ==> Lines(s)[i][k] != NL
  {
    RecordsShape(s, i);
    var r := Records(s)[i];
    var l := Strip(r);
    StripShape(r);
    assert forall k :: 0 <= k < |l| ==> l[k] == r[k];
    if l == r {
      assert r[|r| - 1] != NL;
    }
  }

  /** The newlines in the first record, plus those in the remaining stream. */
  lemma {:induction false} CountNLFirstRecord(s: seq<byte>)
    requires s != []
    ensures CountNL(s) == (if NewlineAt(s) < |s| then 1 else 0) + CountNL(s[RecordLen(s)..])
    decreases |s|
  {
    if s[0] != NL && s[1..] != [] {
      CountNLFirstRecord(s[1..]);
      assert s[RecordLen(s)..] == s[1..][RecordLen(s[1..])..];
    }
  }

  /**
   * The stream has one line per `'\n'`, plus one for a final segment that is
   * not terminated; in particular an empty stream has no lines.
   */
  lemma {:induction false} LineCount(s: seq<byte>)
    ensures |Lines(s)| == CountNL(s) + (if s != [] && s[|s| - 1] != NL then 1 else 0)
    decreases |s|
  {
    if s != [] {
      var n := RecordLen(s);
      var rest := s[n..];
      CountNLFirstRecord(s);
      LineCount(rest);
      if rest != [] {
        assert s[|s| - 1] == rest[|rest| - 1];
      } else if NewlineAt(s) == |s| {
        assert CountNL(rest) == 0;
      }
    }
  }

  /** A stream of well-formed UTF-8 yields only well-formed records. */
  lemma {:induction false} RecordsValid(s: seq<byte>, i: nat)
    requires ValidUtf8(s)
    requires i < |Records(s)|
    ensures ValidUtf8(Records(s)[i])
    decreases |s|
  {
    var n := RecordLen(s);
    if n < |s| {
      assert s == s[..n] + s[n..];
      ValidSplitAfterAscii(s[..n], s[n..]);
      if i > 0 {
        RecordsValid(s[n..], i - 1);
        assert Records(s)[i] == Records(s[n..])[i - 1];
      }
    } else {
      assert s[..n] == s;
    }
  }

  /** Writing one more line appends it and its `'\n'`. */
  lemma TerminatedSnoc(ls: seq<seq<byte>>, l: seq<byte>)
    ensures Terminated(ls + [l]) == Terminated(ls) + l + [NL]
  {
    assert (ls + [l])[..|ls|] == ls;
  }

  /** A line with no `'\n'` in it and no `'\r'` at its end: one that reads back unchanged. */
  predicate PlainLine(l: seq<byte>) {
    (forall k :: 0 <= k < |l| ==> l[k] != NL) && (l == [] || l[|l| - 1] != CR)
  }

  /** In `l + "\n" + t` the first `'\n'` is the one after `l`. */
  lemma NewlineAfterPlainLine(l: seq<byte>, t: seq<byte>)
    requires PlainLine(l)
    ensures NewlineAt(l + [NL] + t) == |l|
  {
    var s := l + [NL] + t;
    assert s[|l|] == NL;
    assert forall k :: 0 <= k < |l| ==> s[k] == l[k];
  }

  /** A plain line with its `'\n'` strips back to itself. */
  lemma StripPlainLine(l: seq<byte>)
    requires PlainLine(l)
    ensures Strip(l + [NL]) == l
  {
    assert (l + [NL])[..|l|] == l;
  }

  lemma StripAllCons(r: seq<byte>, rs: seq<seq<byte>>)
    ensures StripAll([r] + rs) == [Strip(r)] + StripAll(rs)
  {
  }

  /** Reading `l + "\n" + t` yields `l` first, and then the lines of `t`. */
  lemma ReadPlainLine(l: seq<byte>, t: seq<byte>)
    requires PlainLine(l)
    ensures Lines(l + [NL] + t) == [l] + Lines(t)
  {
    var s := l + [NL] + t;
    NewlineAfterPlainLine(l, t);
    assert s[..|l| + 1] == l + [NL];
    assert s[|l| + 1..] == t;
    assert Records(s) == [l + [NL]] + Records(t);
    StripPlainLine(l);
    StripAllCons(l + [NL], Records(t));
  }

  /**
   * Reading the written lines back with `BufRead::lines` gives the same lines:
   * each `println!` writes exactly one record.
   */
  lemma {:induction false} LinesOfTerminated(ls: seq<seq<byte>>)
    requires forall i :: 0 <= i < |ls| ==> PlainLine(ls[i])
    ensures Lines(Terminated(ls)) == ls
    decreases |ls|
  {
    if ls != [] {
      TerminatedCons(ls[0], ls[1..]);
      assert ls == [ls[0]] + ls[1..];
      ReadPlainLine(ls[0], Terminated(ls[1..]));
      LinesOfTerminated(ls[1..]);
    }
  }

  lemma {:induction false} TerminatedCons(l: seq<byte>, ls: seq<seq<byte>>)
    ensures Terminated([l] + ls) == l + [NL] + Terminated(ls)
    decreases |ls|
  {
    if ls == [] {
      assert ([l] + ls)[..0] == [];
    } else {
      var last := ls[|ls| - 1];
      var init := ls[..|ls| - 1];
      assert [l] + ls == ([l] + init) + [last];
      TerminatedSnoc([l] + init, last);
      TerminatedCons(l, init);
      assert ls == init + [last];
      TerminatedSnoc(init, last);
    }
  }

  /** A sequence without `'\n'` counts none. */
  lemma {:induction false} CountNLNone(s: seq<byte>)
    requires forall k :: 0 <= k < |s| ==> s[k] != NL
    ensures CountNL(s) == 0
    decreases |s|
  {
    if s != [] {
      assert forall k :: 0 <= k < |s| - 1 ==> s[1..][k] == s[k + 1];
      CountNLNone(s[1..]);
    }
  }

  /** Writing lines that hold no `'\n'` writes exactly one `'\n'` per line and no more. */
  lemma {:induction false} TerminatedNewlines(ls: seq<seq<byte>>)
    requires forall i, k :: 0 <= i < |ls| && 0 <= k < |ls[i]| ==> ls[i][k] != NL
    ensures CountNL(Terminated(ls)) == |ls|
    decreases |ls|
  {
    if ls != [] {
      var init, last := ls[..|ls| - 1], ls[|ls| - 1];
      TerminatedNewlines(init);
      CountNLNone(last);
      CountNLAppend(Terminated(init) + last, [NL]);
      CountNLAppend(Terminated(init), last);
      assert CountNL([NL]) == 1;
    }
  }

  lemma {:induction false} CountNLAppend(a: seq<byte>, b: seq<byte>)
    ensures CountNL(a + b) == CountNL(a) + CountNL(b)
    decreases |a|
  {
    if a == [] {
      assert a + b == b;
    } else {
      assert (a + b)[1..] == a[1..] + b;
      CountNLAppend(a[1..], b);
    }
  }
}
