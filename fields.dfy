/** The name/value splitter of src/parsers.rs: `extract_header_name_value`
    scans a header line for its first colon, rejecting any non-tchar byte met
    before it, and then matches the rest against the field-value grammar. */
module HeaderFields {
  import opened CharAbnf
  import opened Wrappers
  import opened FieldValue

  /** `ParseError`; InvalidHeaderValueChar is declared by the source but never
      returned. */
  datatype ParseError = InvalidHeaderKeyChar | InvalidHeaderValueChar | ColonNotFound | InvalidHeaderValue

  /** A split header line: (field-name, field-value). The name is the prefix
      of the line before its first colon and the value lies after that colon
      (NameValue's contract and SuccessShape state both). */
  type Field = (seq<Byte>, seq<Byte>)

  predicate AllTchar(s: seq<Byte>) {
    forall k :: 0 <= k < |s| ==> IsTchar(s[k])
  }

  /** The end of the run of tchar bytes that starts at `from`. */
  function TcharEnd(line: seq<Byte>, from: nat): (n: nat)
    requires from <= |line|
    ensures from <= n <= |line|
    ensures forall k :: from <= k < n ==> IsTchar(line[k])
    ensures n < |line| ==> !IsTchar(line[n])
    decreases |line| - from
  {
    if from == |line| || !IsTchar(line[from]) then from else TcharEnd(line, from + 1)
  }

  /** The tchar run of `line` ends at any index that is preceded only by tchar
      bytes and is itself the end of the line or a non-tchar byte. */
  lemma TcharEndIs(line: seq<Byte>, n: nat)
    requires n <= |line|
    requires forall k :: 0 <= k < n ==> IsTchar(line[k])
    requires n < |line| ==> !IsTchar(line[n])
    ensures TcharEnd(line, 0) == n
  {
  }

  /** What `extract_header_name_value` returns for `line`. Since the colon is not
      a tchar, the scan stops at the first non-tchar byte: a colon there ends
      the field-name, anything else is an invalid name byte. A value returned
      is always one repetition of capture group 1. */
  function NameValue(line: seq<Byte>): (r: Result<Field, ParseError>)
    ensures r.Success? ==>
      var name := r.value.0;
      |name| < |line| && line[..|name|] == name && line[|name|] == COLON && AllTchar(name)
    ensures r.Success? ==> IsFieldContent(r.value.1)
  {
    var n := TcharEnd(line, 0);
    if n == |line| then Failure(ColonNotFound)
    else if line[n] != COLON then Failure(InvalidHeaderKeyChar)
    else match FieldValueCapture(line[n + 1..])
      case None => Failure(InvalidHeaderValue)
      case Some(None) => Failure(InvalidHeaderValue)
      case Some(Some(value)) => Success((line[..n], value))
  }

  /** `extract_header_name_value`: the scan for the colon, failing fast on the
      first non-tchar byte before it, then the match of the rest of the line. */
  method ExtractHeaderNameValue(headerLine: seq<Byte>) returns (r: Result<Field, ParseError>)
    ensures r == NameValue(headerLine)
  {
    var colonIndex: Option<nat> := None;
    var i := 0;
    while i < |headerLine|
      invariant 0 <= i <= |headerLine|
      invariant colonIndex == None
      invariant forall k :: 0 <= k < i ==> IsTchar(headerLine[k])
    {
      var c := headerLine[i];
      if c == COLON {
        colonIndex := Some(i);
        break;
      }
      if !IsTchar(c) {
        TcharEndIs(headerLine, i);
        return Failure(InvalidHeaderKeyChar);
      }
      i := i + 1;
    }
    if colonIndex == None {
      TcharEndIs(headerLine, |headerLine|);
      return Failure(ColonNotFound);
    }
    var colon := colonIndex.value;
    TcharExcludesStructure(COLON);
    TcharEndIs(headerLine, colon);
    var haystack := headerLine[colon + 1..];
    var capture := FieldValueCapture(haystack);
    if capture == None {
      return Failure(InvalidHeaderValue);
    }
    var key := headerLine[..colon];
    if capture.value == None {
      return Failure(InvalidHeaderValue);
    }
    r := Success((key, capture.value.value));
  }

  /** InvalidHeaderKeyChar is returned exactly when a byte that is neither a
      tchar nor a colon occurs before the first colon. */
  lemma KeyCharErrorIff(line: seq<Byte>)
    ensures NameValue(line) == Failure(InvalidHeaderKeyChar) <==>
      exists i :: 0 <= i < |line| && !IsTchar(line[i]) && line[i] != COLON && COLON !in line[..i]
  {
    var n := TcharEnd(line, 0);
    TcharExcludesStructure(COLON);
    if NameValue(line) == Failure(InvalidHeaderKeyChar) {
      assert COLON !in line[..n];
    }
    if exists i :: 0 <= i < |line| && !IsTchar(line[i]) && line[i] != COLON && COLON !in line[..i] {
      var i :| 0 <= i < |line| && !IsTchar(line[i]) && line[i] != COLON && COLON !in line[..i];
      assert n <= i;
      if n < i {
        assert line[n] == line[..i][n];
      }
    }
  }

  /** ColonNotFound is returned exactly when every byte is a tchar (so the line
      holds no colon); a line without a colon that holds a non-tchar byte gives
      InvalidHeaderKeyChar instead. */
  lemma ColonNotFoundIff(line: seq<Byte>)
    ensures NameValue(line) == Failure(ColonNotFound) <==> AllTchar(line)
    ensures NameValue(line) == Failure(ColonNotFound) ==> COLON !in line
    ensures COLON !in line ==>
      NameValue(line) == Failure(ColonNotFound) || NameValue(line) == Failure(InvalidHeaderKeyChar)
  {
    TcharExcludesStructure(COLON);
    if AllTchar(line) {
      TcharEndIs(line, |line|);
    }
  }

  /** The value error is never InvalidHeaderValueChar. */
  lemma NeverValueCharError(line: seq<Byte>)
    ensures NameValue(line) != Failure(InvalidHeaderValueChar)
  {
  }

  /** InvalidHeaderValue is returned exactly when the name before the first
      colon is valid and the bytes after it are not a valid value: some byte
      is not SP, HTAB or field-vchar, or no byte is a field-vchar (an empty or
      whitespace-only value). */
  lemma ValueErrorIff(line: seq<Byte>)
    ensures NameValue(line) == Failure(InvalidHeaderValue) <==>
      exists c :: 0 <= c < |line| && line[c] == COLON && AllTchar(line[..c]) &&
        !(AllValueBytes(line[c + 1..]) && HasFieldVchar(line[c + 1..]))
  {
    TcharExcludesStructure(COLON);
    var n := TcharEnd(line, 0);
    if NameValue(line) == Failure(InvalidHeaderValue) {
      assert n < |line| && line[n] == COLON;
      assert AllTchar(line[..n]);
    }
    if exists c :: 0 <= c < |line| && line[c] == COLON && AllTchar(line[..c]) &&
        !(AllValueBytes(line[c + 1..]) && HasFieldVchar(line[c + 1..])) {
      var c :| 0 <= c < |line| && line[c] == COLON && AllTchar(line[..c]) &&
        !(AllValueBytes(line[c + 1..]) && HasFieldVchar(line[c + 1..]));
      ValueErrorAt(line, c);
    }
  }

  /** A valid name, a colon at `c` and an invalid value after it give
      InvalidHeaderValue. */
  lemma ValueErrorAt(line: seq<Byte>, c: nat)
    requires c < |line| && line[c] == COLON && AllTchar(line[..c])
    requires !(AllValueBytes(line[c + 1..]) && HasFieldVchar(line[c + 1..]))
    ensures NameValue(line) == Failure(InvalidHeaderValue)
  {
    ColonEndsName(line, c);
    var capture := FieldValueCapture(line[c + 1..]);
    assert capture.None? || capture.value.None?;
  }

  /** A colon preceded only by tchar bytes is where the scan stops. */
  lemma ColonEndsName(line: seq<Byte>, c: nat)
    requires c < |line| && line[c] == COLON && AllTchar(line[..c])
    ensures TcharEnd(line, 0) == c
  {
    TcharExcludesStructure(COLON);
    assert forall k :: 0 <= k < c ==> IsTchar(line[k]) by {
      forall k | 0 <= k < c ensures IsTchar(line[k]) {
        assert line[k] == line[..c][k];
      }
    }
    TcharEndIs(line, c);
  }

  /** A line splits into (name, value) exactly when it is `name`, a colon and
      a trimmed value `t` surrounded by OWS, where every byte of `name` is a
      tchar (the name may be empty) and `t` is non-empty, made of SP, HTAB and
      field-vchar, and begins and ends with a field-vchar; `value` is then `t`,
      except that of a two-byte `t` it is only the second byte. */
  lemma SuccessIff(line: seq<Byte>, name: seq<Byte>, value: seq<Byte>)
    ensures NameValue(line) == Success((name, value)) <==>
      |name| < |line| && line[..|name|] == name && line[|name|] == COLON && AllTchar(name) &&
      exists t :: IsTrimmedValue(t) && IsOwsAround(line[|name| + 1..], t) &&
        value == (if |t| == 2 then t[1..] else t)
  {
    if NameValue(line) == Success((name, value)) {
      SuccessShape(line, name, value);
    }
    if |name| < |line| && line[..|name|] == name && line[|name|] == COLON && AllTchar(name) &&
      exists t :: IsTrimmedValue(t) && IsOwsAround(line[|name| + 1..], t) &&
        value == (if |t| == 2 then t[1..] else t) {
      var t :| IsTrimmedValue(t) && IsOwsAround(line[|name| + 1..], t) &&
        value == (if |t| == 2 then t[1..] else t);
      SuccessFromShape(line, name, t);
    }
  }

  /** What a successful split says about the line. */
  lemma SuccessShape(line: seq<Byte>, name: seq<Byte>, value: seq<Byte>)
    requires NameValue(line) == Success((name, value))
    ensures |name| < |line| && line[..|name|] == name && line[|name|] == COLON && AllTchar(name)
    ensures IsTrimmedValue(value) && IsFieldContent(value)
    ensures exists t :: IsTrimmedValue(t) && IsOwsAround(line[|name| + 1..], t) &&
                        value == (if |t| == 2 then t[1..] else t)
  {
    var rest := line[|name| + 1..];
    var t := TrimmedFieldValue(rest).value.value;
    assert IsTrimmedValue(t) && IsOwsAround(rest, t) && value == (if |t| == 2 then t[1..] else t);
  }

  /** A line of that shape splits into `name` and the trimmed value `t`, or the
      second byte of `t` when `t` is two bytes long. */
  lemma SuccessFromShape(line: seq<Byte>, name: seq<Byte>, t: seq<Byte>)
    requires |name| < |line| && line[..|name|] == name && line[|name|] == COLON && AllTchar(name)
    requires IsTrimmedValue(t) && IsOwsAround(line[|name| + 1..], t)
    ensures |t| != 2 ==> NameValue(line) == Success((name, t))
    ensures |t| == 2 ==> NameValue(line) == Success((name, t[1..]))
  {
    ColonEndsName(line, |name|);
    CaptureOfOwsAround(line[|name| + 1..], t);
    assert line[..|name|] == name;
  }

  /** Leading and trailing OWS of any length are stripped from the value, and
      its interior, whitespace included, is returned verbatim, unless the value
      is two bytes long: then only its second byte is returned. */
  lemma OwsStrippedFromValue(name: seq<Byte>, before: seq<Byte>, value: seq<Byte>, after: seq<Byte>)
    requires AllTchar(name) && IsOws(before) && IsOws(after) && IsTrimmedValue(value)
    ensures |value| != 2 ==> NameValue(name + [COLON] + before + value + after) == Success((name, value))
    ensures |value| == 2 ==> NameValue(name + [COLON] + before + value + after) == Success((name, value[1..]))
  {
    var line := name + [COLON] + before + value + after;
    var rest := before + value + after;
    assert line[..|name|] == name && line[|name| + 1..] == rest;
    TcharExcludesStructure(COLON);
    assert forall k :: 0 <= k < |name| ==> IsTchar(line[k]) by {
      forall k | 0 <= k < |name| ensures IsTchar(line[k]) { assert line[k] == name[k]; }
    }
    TcharEndIs(line, |name|);
    OwsAroundIsStripped(before, value, after);
  }

  /** The scan fails fast: the first byte of the name that is neither a tchar
      nor a colon decides the result, whatever follows it. */
  lemma KeyCharRejected(name: seq<Byte>, b: Byte, rest: seq<Byte>)
    requires AllTchar(name) && !IsTchar(b) && b != COLON
    ensures NameValue(name + [b] + rest) == Failure(InvalidHeaderKeyChar)
  {
    var line := name + [b] + rest;
    assert forall k :: 0 <= k < |name| ==> IsTchar(line[k]) by {
      forall k | 0 <= k < |name| ensures IsTchar(line[k]) { assert line[k] == name[k]; }
    }
    assert line[|name|] == b;
    TcharEndIs(line, |name|);
  }

  /** Splitting the re-joined `name:value` gives the same pair back: a value
      returned is one repetition of group 1, never two bytes long, so it comes
      back whole. */
  lemma RoundTrip(line: seq<Byte>, name: seq<Byte>, value: seq<Byte>)
    requires NameValue(line) == Success((name, value))
    ensures NameValue(name + [COLON] + value) == Success((name, value))
  {
    FieldContentIsTrimmed(value);
    assert name + [COLON] + value == name + [COLON] + [] + value + [];
    OwsStrippedFromValue(name, [], value, []);
  }

  /** A colon at the start of the line gives an empty name, which is accepted. */
  lemma EmptyNameAccepted(value: seq<Byte>)
    requires IsTrimmedValue(value)
    ensures |value| != 2 ==> NameValue([COLON] + value) == Success(([], value))
    ensures |value| == 2 ==> NameValue([COLON] + value) == Success(([], value[1..]))
  {
    assert [COLON] + value == [] + [COLON] + [] + value + [];
    OwsStrippedFromValue([], [], value, []);
  }

  /** An empty or whitespace-only value is rejected, since capture group 1 then
      takes no part in the match. */
  lemma EmptyValueRejected(name: seq<Byte>, ows: seq<Byte>)
    requires AllTchar(name) && IsOws(ows)
    ensures NameValue(name + [COLON] + ows) == Failure(InvalidHeaderValue)
  {
    var line := name + [COLON] + ows;
    assert line[..|name|] == name && line[|name| + 1..] == ows;
    assert !HasFieldVchar(ows) by {
      forall k | 0 <= k < |ows| ensures !IsFieldVchar(ows[k]) { FieldVcharIsNotWsp(ows[k]); }
    }
    ValueErrorAt(line, |name|);
  }

  /** A control byte other than HTAB anywhere after the colon is rejected. */
  lemma ControlByteInValueRejected(name: seq<Byte>, before: seq<Byte>, b: Byte, after: seq<Byte>)
    requires AllTchar(name) && IsCtl(b) && b != HTAB
    ensures NameValue(name + [COLON] + before + [b] + after) == Failure(InvalidHeaderValue)
  {
    var line := name + [COLON] + before + [b] + after;
    var rest := before + [b] + after;
    assert line[..|name|] == name && line[|name| + 1..] == rest;
    assert rest[|before|] == b && !IsValueByte(b);
    ValueErrorAt(line, |name|);
  }
}
