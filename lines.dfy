/** The line extractor of src/parsers.rs: `extract_header_lines` splits a header
    block on LF, drops the empty pieces and then strips one trailing CR from each
    remaining piece. */
module HeaderLines {
  import opened CharAbnf

  /** The pieces of `s` between LF bytes, joined back with one LF between
      consecutive pieces: the inverse of SplitLf. */
  function JoinLf(segments: seq<seq<Byte>>): (s: seq<Byte>)
    requires |segments| >= 1
  {
    if |segments| == 1 then segments[0]
    else segments[0] + [LF] + JoinLf(segments[1..])
  }

  /** `slice::split(|&c| c == b'\n')`: the maximal LF-free pieces of `s`, in
      order; an input with k LF bytes has k + 1 pieces (so the empty input has
      one empty piece and a trailing LF leaves an empty last piece). */
  function SplitLf(s: seq<Byte>): (segments: seq<seq<Byte>>)
    ensures |segments| >= 1
    ensures forall k :: 0 <= k < |segments| ==> LF !in segments[k]
    ensures JoinLf(segments) == s
    decreases |s|
  {
    if s == [] then [[]]
    else
      var rest := SplitLf(s[1..]);
      if s[0] == LF then
        assert ([[]] + rest)[1..] == rest;
        [[]] + rest
      else
        assert ([[s[0]] + rest[0]] + rest[1..])[1..] == rest[1..];
        assert |rest| > 1 ==> rest == [rest[0]] + rest[1..];
        [[s[0]] + rest[0]] + rest[1..]
  }

  /** A piece that contains no LF is split off before the first LF of `s`. */
  lemma {:induction false} SplitLfAfterPiece(piece: seq<Byte>, rest: seq<Byte>)
    requires LF !in piece
    ensures SplitLf(piece + [LF] + rest) == [piece] + SplitLf(rest)
    decreases |piece|
  {
    var s := piece + [LF] + rest;
    if piece == [] {
      assert s == [LF] + rest;
      assert s[1..] == rest;
    } else {
      var tail := piece[1..];
      SplitLfAfterPiece(tail, rest);
      assert s[0] == piece[0] && s[1..] == tail + [LF] + rest;
      var after := SplitLf(s[1..]);
      assert after == [tail] + SplitLf(rest);
      assert after[0] == tail && after[1..] == SplitLf(rest);
      assert [piece[0]] + tail == piece;
    }
  }

  /** A piece that contains no LF is not split at all. */
  lemma {:induction false} SplitLfOfPiece(piece: seq<Byte>)
    requires LF !in piece
    ensures SplitLf(piece) == [piece]
    decreases |piece|
  {
    if piece != [] {
      SplitLfOfPiece(piece[1..]);
      assert piece == [piece[0]] + piece[1..];
    }
  }

  /** Joining LF-free pieces and splitting the result gives the pieces back. */
  lemma {:induction false} SplitJoinRoundTrip(segments: seq<seq<Byte>>)
    requires |segments| >= 1
    requires forall k :: 0 <= k < |segments| ==> LF !in segments[k]
    ensures SplitLf(JoinLf(segments)) == segments
  {
    if |segments| == 1 {
      SplitLfOfPiece(segments[0]);
    } else {
      SplitJoinRoundTrip(segments[1..]);
      SplitLfAfterPiece(segments[0], JoinLf(segments[1..]));
      assert segments == [segments[0]] + segments[1..];
    }
  }

  /** A non-empty piece with at most one trailing CR removed. */
  function StripCr(segment: seq<Byte>): (line: seq<Byte>)
    ensures segment == line || segment == line + [CR]
    ensures |segment| > 0 && segment[|segment| - 1] == CR ==> segment == line + [CR]
  {
    if |segment| > 0 && segment[|segment| - 1] == CR then segment[..|segment| - 1] else segment
  }

  /** The lines produced from a sequence of pieces: the empty pieces are dropped
      first and a trailing CR is stripped from each of the others afterwards. */
  function LinesOf(segments: seq<seq<Byte>>): (lines: seq<seq<Byte>>)
    ensures |lines| <= |segments|
  {
    if segments == [] then []
    else
      var last := segments[|segments| - 1];
      var init := LinesOf(segments[..|segments| - 1]);
      if |last| > 0 then init + [StripCr(last)] else init
  }

  /** The lines of a header block. */
  function Lines(headers: seq<Byte>): (lines: seq<seq<Byte>>)
  {
    LinesOf(SplitLf(headers))
  }

  /** `extract_header_lines`: iterates over the LF-separated pieces, skips the
      empty ones and pushes each other piece without its trailing CR. */
  method ExtractHeaderLines(headers: seq<Byte>) returns (headerLines: seq<seq<Byte>>)
    ensures headerLines == Lines(headers)
    ensures forall k :: 0 <= k < |headerLines| ==> LF !in headerLines[k]
    ensures multiset(headerLines)[[]] == multiset(SplitLf(headers))[[CR]]
  {
    var segments := SplitLf(headers);
    headerLines := [];
    for j := 0 to |segments|
      invariant headerLines == LinesOf(segments[..j])
    {
      assert segments[..j + 1][..j] == segments[..j];
      var line := segments[j];
      if |line| > 0 {
        if line[|line| - 1] == CR {
          headerLines := headerLines + [line[..|line| - 1]];
        } else {
          headerLines := headerLines + [line];
        }
      }
    }
    assert segments[..|segments|] == segments;
    LinesHaveNoLf(headers);
    EmptyLineIffCrPiece(headers);
  }

  /** LinesOf distributes over concatenation of the pieces. */
  lemma {:induction false} LinesOfAppend(a: seq<seq<Byte>>, b: seq<seq<Byte>>)
    ensures LinesOf(a + b) == LinesOf(a) + LinesOf(b)
    decreases |b|
  {
    if b == [] {
      assert a + b == a;
    } else {
      var b' := b[..|b| - 1];
      LinesOfAppend(a, b');
      assert (a + b)[..|a + b| - 1] == a + b';
    }
  }

  /** Every extracted line is a piece of the block less at most one CR, so it
      never contains LF. */
  lemma {:induction false} LinesOfHaveNoLf(segments: seq<seq<Byte>>)
    requires forall k :: 0 <= k < |segments| ==> LF !in segments[k]
    ensures forall k :: 0 <= k < |LinesOf(segments)| ==> LF !in LinesOf(segments)[k]
    decreases |segments|
  {
    if segments != [] {
      var init := segments[..|segments| - 1];
      LinesOfHaveNoLf(init);
      var last := segments[|segments| - 1];
      if |last| > 0 {
        var line := StripCr(last);
        assert forall i :: 0 <= i < |line| ==> line[i] == last[i];
      }
    }
  }

  /** No extracted line contains LF. */
  lemma LinesHaveNoLf(headers: seq<Byte>)
    ensures forall k :: 0 <= k < |Lines(headers)| ==> LF !in Lines(headers)[k]
  {
    LinesOfHaveNoLf(SplitLf(headers));
  }

  /** An extracted line is empty exactly when its piece is the single byte CR:
      because the emptiness filter runs before CR stripping, each such piece
      yields one empty line. */
  lemma {:induction false} EmptyLinesOf(segments: seq<seq<Byte>>)
    ensures multiset(LinesOf(segments))[[]] == multiset(segments)[[CR]]
    decreases |segments|
  {
    if segments != [] {
      var init := segments[..|segments| - 1];
      var last := segments[|segments| - 1];
      EmptyLinesOf(init);
      assert segments == init + [last];
      if |last| > 0 {
        assert StripCr(last) == [] <==> last == [CR];
      }
    }
  }

  /** The number of empty lines equals the number of pieces that are exactly CR. */
  lemma EmptyLineIffCrPiece(headers: seq<Byte>)
    ensures multiset(Lines(headers))[[]] == multiset(SplitLf(headers))[[CR]]
  {
    EmptyLinesOf(SplitLf(headers));
  }

  /** The block made of `lines`, each followed by `terminator`. */
  function Terminated(lines: seq<seq<Byte>>, terminator: seq<Byte>): (block: seq<Byte>)
  {
    if lines == [] then [] else lines[0] + terminator + Terminated(lines[1..], terminator)
  }

  /** Lines that end in CR LF come back unchanged, empty ones included. */
  lemma {:induction false} CrlfTerminatedRoundTrip(lines: seq<seq<Byte>>)
    requires forall k :: 0 <= k < |lines| ==> LF !in lines[k]
    ensures Lines(Terminated(lines, [CR, LF])) == lines
  {
    if lines != [] {
      var head, tail := lines[0], lines[1..];
      assert forall k :: 0 <= k < |tail| ==> LF !in tail[k] by {
        forall k | 0 <= k < |tail| ensures LF !in tail[k] {
          assert tail[k] == lines[k + 1];
        }
      }
      CrlfTerminatedRoundTrip(tail);
      var rest := Terminated(tail, [CR, LF]);
      var piece := head + [CR];
      assert LF !in piece;
      assert StripCr(piece) == head by {
        assert piece[..|piece| - 1] == head;
      }
      assert Terminated(lines, [CR, LF]) == piece + [LF] + rest;
      SplitLfAfterPiece(piece, rest);
      LinesOfCons(piece, SplitLf(rest));
      assert lines == [head] + tail;
    }
  }

  /** The lines of a non-empty first piece followed by more pieces. */
  lemma LinesOfCons(piece: seq<Byte>, segments: seq<seq<Byte>>)
    requires |piece| > 0
    ensures LinesOf([piece] + segments) == [StripCr(piece)] + LinesOf(segments)
  {
    LinesOfSingle(piece);
    LinesOfAppend([piece], segments);
  }

  /** One non-empty piece gives one line. */
  lemma LinesOfSingle(piece: seq<Byte>)
    requires |piece| > 0
    ensures LinesOf([piece]) == [StripCr(piece)]
  {
    assert [piece][..0] == [];
  }

  /** Lines that end in a bare LF come back unchanged when none of them is empty
      or ends in CR; on such lines both terminators give the same result. */
  lemma {:induction false} LfTerminatedRoundTrip(lines: seq<seq<Byte>>)
    requires forall k :: 0 <= k < |lines| ==> LF !in lines[k]
    requires forall k :: 0 <= k < |lines| ==> |lines[k]| > 0 && lines[k][|lines[k]| - 1] != CR
    ensures Lines(Terminated(lines, [LF])) == lines
    ensures Lines(Terminated(lines, [LF])) == Lines(Terminated(lines, [CR, LF]))
  {
    if lines != [] {
      var rest := Terminated(lines[1..], [LF]);
      LfTerminatedRoundTrip(lines[1..]);
      SplitLfAfterPiece(lines[0], rest);
      LinesOfCons(lines[0], SplitLf(rest));
      assert lines == [lines[0]] + lines[1..];
    }
    CrlfTerminatedRoundTrip(lines);
  }

  /** With the corrected two-byte CRLF predicate: a line followed by a CRLF pair
      is extracted as exactly that line, even when it is empty. */
  lemma CrlfPairEndsLine(line: seq<Byte>, first: Byte, second: Byte)
    requires LF !in line
    requires IsCrlfPair(first, second)
    ensures Lines(line + [first, second]) == [line]
  {
    assert [line][1..] == [];
    assert Terminated([line], [CR, LF]) == line + [CR, LF] + Terminated([], [CR, LF]);
    CrlfTerminatedRoundTrip([line]);
    assert [first, second] == [CR, LF];
    assert line + [first, second] == line + [CR, LF] + [];
  }
}
