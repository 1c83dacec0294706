/** The field-value grammar of src/parsers.rs (`FIELD_VALUE_WITH_OWS`), the
    `field-value` rule of RFC 7230, section 3.2, in the `field-content` form of
    RFC 9110, section 5.5, surrounded by optional whitespace (OWS):

      ^[ \t]* ( field-vchar ( [ \t field-vchar]+ field-vchar )? )* [ \t]*$

    The regular-expression engine is replaced by functions on bytes:
    TrimmedFieldValue finds the value between the OWS, and FieldValueCapture is
    what capture group 1 holds. The group sits inside `( ... )*`, so it reports
    its last repetition only: the whole value when the value is one repetition,
    its second byte when the value is two bytes long (a repetition is one byte
    or at least three). The pattern itself is kept as the ghost predicate
    MatchesFieldValueWithOws, and the lemmas at the end show that it agrees
    with the functions. */
module FieldValue {
  import opened CharAbnf
  import opened Wrappers

  /** field-vchar: VCHAR or obs-text (0x80-0xFF). */
  predicate IsFieldVchar(b: Byte) {
    IsVchar(b) || 0x80 <= b
  }

  /** A byte the pattern admits anywhere in a value: SP, HTAB or field-vchar. */
  predicate IsValueByte(b: Byte) {
    b == SP || b == HTAB || IsFieldVchar(b)
  }

  predicate AllValueBytes(v: seq<Byte>) {
    forall k :: 0 <= k < |v| ==> IsValueByte(v[k])
  }

  /** OWS: zero or more SP/HTAB. */
  predicate IsOws(v: seq<Byte>) {
    forall k :: 0 <= k < |v| ==> IsWsp(v[k])
  }

  predicate HasFieldVchar(v: seq<Byte>) {
    exists k :: 0 <= k < |v| && IsFieldVchar(v[k])
  }

  /** A field-vchar is never whitespace, and a value byte that is not
      whitespace is a field-vchar. */
  lemma FieldVcharIsNotWsp(b: Byte)
    ensures IsFieldVchar(b) ==> !IsWsp(b) && IsValueByte(b)
    ensures IsValueByte(b) && !IsWsp(b) ==> IsFieldVchar(b)
    ensures IsWsp(b) ==> IsValueByte(b)
  {
  }

  /** The end of the run of SP/HTAB that starts at `from`. */
  function OwsEnd(v: seq<Byte>, from: nat): (n: nat)
    requires from <= |v|
    ensures from <= n <= |v|
    ensures forall k :: from <= k < n ==> IsWsp(v[k])
    ensures n < |v| ==> !IsWsp(v[n])
    decreases |v| - from
  {
    if from == |v| || !IsWsp(v[from]) then from else OwsEnd(v, from + 1)
  }

  /** The start of the run of SP/HTAB that ends just before `upto`. */
  function OwsStart(v: seq<Byte>, upto: nat): (n: nat)
    requires upto <= |v|
    ensures n <= upto
    ensures forall k :: n <= k < upto ==> IsWsp(v[k])
    ensures n > 0 ==> !IsWsp(v[n - 1])
    decreases upto
  {
    if upto == 0 || !IsWsp(v[upto - 1]) then upto else OwsStart(v, upto - 1)
  }

  /** A value as the parser returns it: non-empty, made of value bytes, and
      beginning and ending with a field-vchar. */
  predicate IsTrimmedValue(value: seq<Byte>) {
    |value| > 0 && AllValueBytes(value) && IsFieldVchar(value[0]) && IsFieldVchar(value[|value| - 1])
  }

  /** `v` is `value` with OWS before and after it. */
  ghost predicate IsOwsAround(v: seq<Byte>, value: seq<Byte>) {
    exists i :: 0 <= i <= |v| - |value| && IsOws(v[..i]) && v[i..i + |value|] == value && IsOws(v[i + |value|..])
  }

  /** The value `v` carries between its leading and trailing OWS: None when
      `FIELD_VALUE_WITH_OWS` does not match, Some(None) when it matches but
      there is no value (only whitespace), Some(Some(value)) otherwise. This is
      what capture group 1 is meant to hold; FieldValueCapture is what it holds. */
  function TrimmedFieldValue(v: seq<Byte>): (r: Option<Option<seq<Byte>>>)
    ensures r.Some? <==> AllValueBytes(v)
    ensures r.Some? ==> (r.value.Some? <==> HasFieldVchar(v))
    ensures r.Some? && r.value.Some? ==> IsTrimmedValue(r.value.value) && IsOwsAround(v, r.value.value)
  {
    if !AllValueBytes(v) then None
    else
      var start := OwsEnd(v, 0);
      if start == |v| then
        assert !HasFieldVchar(v) by {
          forall k | 0 <= k < |v| ensures !IsFieldVchar(v[k]) {
            FieldVcharIsNotWsp(v[k]);
          }
        }
        Some(None)
      else
        var end := OwsStart(v, |v|);
        FieldVcharIsNotWsp(v[start]);
        assert start < end;
        FieldVcharIsNotWsp(v[end - 1]);
        var value := v[start..end];
        assert v[..start] == v[0..start];
        assert IsOwsAround(v, value) by {
          assert v[start..start + |value|] == value;
        }
        Some(Some(value))
  }

  /** The last repetition of group 1 when the repetition `( ... )*` spans the
      trimmed value `t`. It is one repetition that ends `t`, and the bytes before
      it are repetitions too. A leftmost-first engine makes each repetition as
      long as it can, so a `t` that is one repetition is taken whole; a `t` that
      is not (two bytes) has only one possible last repetition. */
  function LastRepetition(t: seq<Byte>): (c: seq<Byte>)
    requires IsTrimmedValue(t)
    ensures IsFieldContent(c) && |c| <= |t| && t[|t| - |c|..] == c
    ensures IsFieldContentRep(t[..|t| - |c|])
    ensures IsFieldContent(t) ==> c == t
    ensures !IsFieldContent(t) ==>
      forall k :: 0 <= k < |t| && IsFieldContent(t[k..]) && IsFieldContentRep(t[..k]) ==> k == |t| - |c|
    ensures |t| == 2 <==> c != t
  {
    TrimmedIsOneOrTwoRepetitions(t);
    if |t| == 2 then
      assert t[..1] == [t[0]] && t[..1][..1] == t[..1] && t[..1][1..] == [];
      assert IsFieldContent(t[..1][..1]) && IsFieldContentRep(t[..1][1..]);
      t[1..]
    else
      assert t[..0] == [];
      t
  }

  /** A trimmed value is one repetition of group 1 unless it is two bytes long,
      and then it is two one-byte repetitions and nothing else. */
  lemma TrimmedIsOneOrTwoRepetitions(t: seq<Byte>)
    requires IsTrimmedValue(t)
    ensures IsFieldContent(t) <==> |t| != 2
    ensures |t| == 2 ==> IsFieldContent(t[..1]) && IsFieldContent(t[1..])
  {
    FieldVcharIsNotWsp(t[0]);
    if |t| >= 3 {
      var middle := t[1..|t| - 1];
      assert AllValueBytes(middle) by {
        forall m | 0 <= m < |middle| ensures IsValueByte(middle[m]) {
          assert middle[m] == t[m + 1];
        }
      }
    }
  }

  /** One repetition of group 1 is a trimmed value, and never two bytes long. */
  lemma FieldContentIsTrimmed(c: seq<Byte>)
    requires IsFieldContent(c)
    ensures IsTrimmedValue(c) && |c| != 2
  {
    forall m | 0 <= m < |c| ensures IsValueByte(c[m]) {
      if 0 < m < |c| - 1 {
        assert c[m] == c[1..|c| - 1][m - 1];
      } else {
        FieldVcharIsNotWsp(c[m]);
      }
    }
  }

  /** What matching `FIELD_VALUE_WITH_OWS` against `v` yields as the source
      reads it: None when the pattern does not match, Some(None) when it
      matches but capture group 1 takes no part (no repetition of the group),
      Some(Some(c)) with the bytes of the last repetition of group 1 otherwise. */
  function FieldValueCapture(v: seq<Byte>): (r: Option<Option<seq<Byte>>>)
    ensures r.Some? <==> AllValueBytes(v)
    ensures r.Some? ==> (r.value.Some? <==> HasFieldVchar(v))
    ensures r.Some? && r.value.Some? ==>
      var t := TrimmedFieldValue(v).value.value;
      IsFieldContent(r.value.value) && IsOwsAround(v, t) &&
      (|t| != 2 ==> r.value.value == t) && (|t| == 2 ==> r.value.value == t[1..])
  {
    match TrimmedFieldValue(v)
    case Some(Some(t)) => Some(Some(LastRepetition(t)))
    case other => other
  }

  /** Whatever OWS surrounds a trimmed value, the value is exactly what lies
      between: the leading and trailing whitespace are stripped entirely and
      the interior is kept byte for byte. Group 1 holds that value, except that
      of a two-byte value it holds only the second byte. */
  lemma OwsAroundIsStripped(before: seq<Byte>, value: seq<Byte>, after: seq<Byte>)
    requires IsOws(before) && IsOws(after)
    requires IsTrimmedValue(value)
    ensures TrimmedFieldValue(before + value + after) == Some(Some(value))
    ensures |value| != 2 ==> FieldValueCapture(before + value + after) == Some(Some(value))
    ensures |value| == 2 ==> FieldValueCapture(before + value + after) == Some(Some(value[1..]))
  {
    var v := before + value + after;
    var i, j := |before|, |before| + |value|;
    assert AllValueBytes(v) by {
      forall k | 0 <= k < |v| ensures IsValueByte(v[k]) {
        if k < i { FieldVcharIsNotWsp(v[k]); }
        else if k >= j { FieldVcharIsNotWsp(v[k]); }
      }
    }
    FieldVcharIsNotWsp(value[0]);
    FieldVcharIsNotWsp(value[|value| - 1]);
    assert v[i] == value[0];
    assert v[j - 1] == value[|value| - 1];
    var start := OwsEnd(v, 0);
    assert start == i;
    var end := OwsStart(v, |v|);
    assert end == j;
    assert v[i..j] == value;
  }

  /** The value of `v` surrounded by OWS is that value, and so is the capture
      unless the value is two bytes long. */
  lemma CaptureOfOwsAround(v: seq<Byte>, value: seq<Byte>)
    requires IsTrimmedValue(value) && IsOwsAround(v, value)
    ensures TrimmedFieldValue(v) == Some(Some(value))
    ensures |value| != 2 ==> FieldValueCapture(v) == Some(Some(value))
    ensures |value| == 2 ==> FieldValueCapture(v) == Some(Some(value[1..]))
  {
    var i :| 0 <= i <= |v| - |value| && IsOws(v[..i]) && v[i..i + |value|] == value && IsOws(v[i + |value|..]);
    CaptureAt(v, value, i);
  }

  lemma CaptureAt(v: seq<Byte>, value: seq<Byte>, i: nat)
    requires IsTrimmedValue(value) && i + |value| <= |v|
    requires IsOws(v[..i]) && v[i..i + |value|] == value && IsOws(v[i + |value|..])
    ensures TrimmedFieldValue(v) == Some(Some(value))
    ensures |value| != 2 ==> FieldValueCapture(v) == Some(Some(value))
    ensures |value| == 2 ==> FieldValueCapture(v) == Some(Some(value[1..]))
  {
    var before, after := v[..i], v[i + |value|..];
    assert v == before + v[i..i + |value|] + after;
    OwsAroundIsStripped(before, value, after);
  }

  /** Two values joined by whitespace form one value: interior whitespace is
      part of the value, not a separator. */
  lemma TrimmedValuesJoin(first: seq<Byte>, ws: seq<Byte>, second: seq<Byte>)
    requires IsTrimmedValue(first) && IsOws(ws) && IsTrimmedValue(second)
    ensures IsTrimmedValue(first + ws + second)
  {
    var v := first + ws + second;
    forall k | 0 <= k < |v| ensures IsValueByte(v[k]) {
      if |first| <= k < |first| + |ws| {
        assert v[k] == ws[k - |first|];
        FieldVcharIsNotWsp(v[k]);
      }
    }
    assert v[|v| - 1] == second[|second| - 1];
  }

  // The pattern as a grammar over bytes.

  /** The body of capture group 1: one field-vchar, optionally followed by one
      or more SP/HTAB/field-vchar bytes and a final field-vchar. */
  ghost predicate IsFieldContent(c: seq<Byte>) {
    |c| >= 1 && IsFieldVchar(c[0]) &&
    (|c| == 1 || (|c| >= 3 && AllValueBytes(c[1..|c| - 1]) && IsFieldVchar(c[|c| - 1])))
  }

  /** Zero or more repetitions of group 1. */
  ghost predicate IsFieldContentRep(s: seq<Byte>)
    decreases |s|
  {
    s == [] || exists k :: 1 <= k <= |s| && IsFieldContent(s[..k]) && IsFieldContentRep(s[k..])
  }

  /** The anchored pattern matches `v` with the repetition spanning `v[i..j]`. */
  ghost predicate MatchesAt(v: seq<Byte>, i: int, j: int) {
    0 <= i <= j <= |v| && IsOws(v[..i]) && IsFieldContentRep(v[i..j]) && IsOws(v[j..])
  }

  /** The anchored pattern matches `v`. */
  ghost predicate MatchesFieldValueWithOws(v: seq<Byte>) {
    exists i, j :: MatchesAt(v, i, j)
  }

  /** A non-empty repetition of field-content is a trimmed value. */
  lemma {:induction false} FieldContentRepIsTrimmed(s: seq<Byte>)
    requires IsFieldContentRep(s) && s != []
    ensures IsTrimmedValue(s)
    decreases |s|
  {
    var k :| 1 <= k <= |s| && IsFieldContent(s[..k]) && IsFieldContentRep(s[k..]);
    var c, rest := s[..k], s[k..];
    FieldContentIsTrimmed(c);
    assert s[0] == c[0];
    if rest == [] {
      assert s == c;
    } else {
      FieldContentRepIsTrimmed(rest);
      forall m | 0 <= m < |s| ensures IsValueByte(s[m]) {
        if m < k {
          assert s[m] == c[m];
        } else {
          assert s[m] == rest[m - k];
        }
      }
      assert s[|s| - 1] == rest[|rest| - 1];
    }
  }

  /** A trimmed value is one or two repetitions of field-content. */
  lemma TrimmedIsFieldContentRep(s: seq<Byte>)
    requires IsTrimmedValue(s)
    ensures IsFieldContentRep(s)
  {
    FieldVcharIsNotWsp(s[0]);
    if |s| == 1 {
      assert s[..1] == s && s[1..] == [];
      assert IsFieldContent(s[..1]) && IsFieldContentRep(s[1..]);
    } else if |s| == 2 {
      var rest := s[1..];
      assert rest[..1] == [s[1]] && rest[1..] == [];
      assert IsFieldContent(rest[..1]) && IsFieldContentRep(rest[1..]);
      assert s[..1] == [s[0]];
      assert IsFieldContent(s[..1]) && IsFieldContentRep(s[1..]);
    } else {
      assert s[..|s|] == s && s[|s|..] == [];
      var middle := s[1..|s| - 1];
      assert AllValueBytes(middle) by {
        forall m | 0 <= m < |middle| ensures IsValueByte(middle[m]) {
          assert middle[m] == s[m + 1];
        }
      }
      assert IsFieldContent(s[..|s|]) && IsFieldContentRep(s[|s|..]);
    }
  }

  /** A repetition of field-content is empty or a trimmed value, and both are
      repetitions of field-content. */
  lemma FieldContentRepIff(s: seq<Byte>)
    ensures IsFieldContentRep(s) <==> s == [] || IsTrimmedValue(s)
  {
    if s != [] && IsFieldContentRep(s) {
      FieldContentRepIsTrimmed(s);
    }
    if IsTrimmedValue(s) {
      TrimmedIsFieldContentRep(s);
    }
  }

  /** The pattern matches exactly the values made of SP, HTAB and field-vchar
      bytes, which is when the capture is not None. */
  lemma PatternMatchesIff(v: seq<Byte>)
    ensures MatchesFieldValueWithOws(v) <==> FieldValueCapture(v).Some?
  {
    if MatchesFieldValueWithOws(v) {
      var i, j :| MatchesAt(v, i, j);
      MatchIsValueBytes(v, i, j);
    }
    if FieldValueCapture(v).Some? {
      CaptureIsMatch(v);
    }
  }

  /** A match admits only SP, HTAB and field-vchar bytes. */
  lemma MatchIsValueBytes(v: seq<Byte>, i: int, j: int)
    requires MatchesAt(v, i, j)
    ensures AllValueBytes(v)
  {
    var before, middle, after := v[..i], v[i..j], v[j..];
    FieldContentRepIff(middle);
    forall k | 0 <= k < |v| ensures IsValueByte(v[k]) {
      FieldVcharIsNotWsp(v[k]);
      if k < i {
        assert v[k] == before[k];
      } else if k >= j {
        assert v[k] == after[k - j];
      } else {
        assert v[k] == middle[k - i];
      }
    }
  }

  /** Whenever the capture is not None the pattern matches. */
  lemma CaptureIsMatch(v: seq<Byte>)
    requires TrimmedFieldValue(v).Some?
    ensures MatchesFieldValueWithOws(v)
  {
    match TrimmedFieldValue(v).value
    case None =>
      assert IsOws(v) by {
        forall k | 0 <= k < |v| ensures IsWsp(v[k]) {
          FieldVcharIsNotWsp(v[k]);
        }
      }
      FieldContentRepIff(v[0..0]);
      assert v[..0] == [] && v[0..] == v;
      assert MatchesAt(v, 0, 0);
    case Some(value) =>
      var i :| 0 <= i <= |v| - |value| && IsOws(v[..i]) && v[i..i + |value|] == value && IsOws(v[i + |value|..]);
      FieldContentRepIff(value);
      assert MatchesAt(v, i, i + |value|);
  }

  /** Whenever the repetition of group 1 is non-empty in a match, it spans
      exactly the trimmed value, so group 1 takes part in a match if and only
      if the capture holds a value; that value is the whole span unless the
      span is two bytes, which are two repetitions, the second one captured.
      CaptureMeansRepetition is the converse. */
  lemma MatchedRepetitionIsCapture(v: seq<Byte>, i: int, j: int)
    requires MatchesAt(v, i, j) && i < j
    ensures TrimmedFieldValue(v) == Some(Some(v[i..j]))
    ensures j - i != 2 ==> FieldValueCapture(v) == Some(Some(v[i..j]))
    ensures j - i == 2 ==> FieldValueCapture(v) == Some(Some(v[j - 1..j]))
  {
    FieldContentRepIff(v[i..j]);
    assert v == v[..i] + v[i..j] + v[j..];
    OwsAroundIsStripped(v[..i], v[i..j], v[j..]);
    if j - i == 2 {
      assert v[i..j][1..] == v[j - 1..j];
    }
  }

  /** The converse: whenever the capture holds a value, the repetition of
      group 1 is non-empty in every match. */
  lemma CaptureMeansRepetition(v: seq<Byte>, i: int, j: int)
    requires MatchesAt(v, i, j)
    requires FieldValueCapture(v).Some? && FieldValueCapture(v).value.Some?
    ensures i < j
  {
    assert HasFieldVchar(v);
    FieldVcharBetween(v, i, j);
  }

  /** A field-vchar in `v` lies between a leading and a trailing run of OWS. */
  lemma FieldVcharBetween(v: seq<Byte>, i: int, j: int)
    requires 0 <= i <= j <= |v| && IsOws(v[..i]) && IsOws(v[j..])
    requires HasFieldVchar(v)
    ensures i < j
  {
    forall m | 0 <= m < |v| && !(i <= m < j) ensures IsWsp(v[m]) {
      if m < i {
        assert v[m] == v[..i][m];
      } else {
        assert v[m] == v[j..][m - j];
      }
    }
    var k :| 0 <= k < |v| && IsFieldVchar(v[k]);
    FieldVcharIsNotWsp(v[k]);
  }
}
