/** The test cases of src/parsers.rs, stated on byte sequences and proved from
    the general lemmas. */
module HeaderExamples {
  import opened CharAbnf
  import opened Wrappers
  import opened FieldValue
  import opened HeaderLines
  import opened HeaderFields

  /** "Content-Type" */
  const ContentType: seq<Byte> := [0x43, 0x6F, 0x6E, 0x74, 0x65, 0x6E, 0x74, 0x2D, 0x54, 0x79, 0x70, 0x65]
  /** "text/html" */
  const TextHtml: seq<Byte> := [0x74, 0x65, 0x78, 0x74, 0x2F, 0x68, 0x74, 0x6D, 0x6C]
  /** "Content-Length: 1234" */
  const ContentLengthLine: seq<Byte> :=
    [0x43, 0x6F, 0x6E, 0x74, 0x65, 0x6E, 0x74, 0x2D, 0x4C, 0x65, 0x6E, 0x67, 0x74, 0x68, 0x3A, 0x20, 0x31, 0x32, 0x33, 0x34]
  /** "Content-Length" */
  const ContentLength: seq<Byte> := [0x43, 0x6F, 0x6E, 0x74, 0x65, 0x6E, 0x74, 0x2D, 0x4C, 0x65, 0x6E, 0x67, 0x74, 0x68]
  /** "User-Agent" */
  const UserAgent: seq<Byte> := [0x55, 0x73, 0x65, 0x72, 0x2D, 0x41, 0x67, 0x65, 0x6E, 0x74]
  /** The words of "Mozilla/5.0 (Windows NT 6.1; Win64; x64; rv:47.0) Gecko/20100101 Firefox/47.0". */
  const Mozilla50: seq<Byte> := [0x4D, 0x6F, 0x7A, 0x69, 0x6C, 0x6C, 0x61, 0x2F, 0x35, 0x2E, 0x30]
  const Windows: seq<Byte> := [0x28, 0x57, 0x69, 0x6E, 0x64, 0x6F, 0x77, 0x73]
  const Nt: seq<Byte> := [0x4E, 0x54]
  const Version61: seq<Byte> := [0x36, 0x2E, 0x31, 0x3B]
  const Win64: seq<Byte> := [0x57, 0x69, 0x6E, 0x36, 0x34, 0x3B]
  const X64: seq<Byte> := [0x78, 0x36, 0x34, 0x3B]
  const Rv47: seq<Byte> := [0x72, 0x76, 0x3A, 0x34, 0x37, 0x2E, 0x30, 0x29]
  const Gecko: seq<Byte> := [0x47, 0x65, 0x63, 0x6B, 0x6F, 0x2F, 0x32, 0x30, 0x31, 0x30, 0x30, 0x31, 0x30, 0x31]
  const Firefox47: seq<Byte> := [0x46, 0x69, 0x72, 0x65, 0x66, 0x6F, 0x78, 0x2F, 0x34, 0x37, 0x2E, 0x30]

  /** The User-Agent value: its words separated by single spaces. */
  function Mozilla(): (value: seq<Byte>) {
    Mozilla50 + [SP] + Windows + [SP] + Nt + [SP] + Version61 + [SP] + Win64 + [SP] + X64 + [SP] +
    Rv47 + [SP] + Gecko + [SP] + Firefox47
  }

  /** Every byte of `s` from `from` on is a tchar, checked one index at a time
      so that it can be evaluated on a literal. */
  predicate TcharFrom(s: seq<Byte>, from: nat)
    requires from <= |s|
    decreases |s| - from
  {
    from == |s| || (IsTchar(s[from]) && TcharFrom(s, from + 1))
  }

  lemma {:induction false} TcharFromSound(s: seq<Byte>, from: nat)
    requires from <= |s| && TcharFrom(s, from)
    ensures forall k :: from <= k < |s| ==> IsTchar(s[k])
    decreases |s| - from
  {
    if from < |s| {
      TcharFromSound(s, from + 1);
    }
  }

  /** Every byte of `s` from `from` on is SP, HTAB or field-vchar, checked one
      index at a time. */
  predicate ValueBytesFrom(s: seq<Byte>, from: nat)
    requires from <= |s|
    decreases |s| - from
  {
    from == |s| || (IsValueByte(s[from]) && ValueBytesFrom(s, from + 1))
  }

  lemma {:induction false} ValueBytesFromSound(s: seq<Byte>, from: nat)
    requires from <= |s| && ValueBytesFrom(s, from)
    ensures forall k :: from <= k < |s| ==> IsValueByte(s[k])
    decreases |s| - from
  {
    if from < |s| {
      ValueBytesFromSound(s, from + 1);
    }
  }

  /** A word checked on its literal bytes is a trimmed value. */
  lemma WordIsValue(word: seq<Byte>)
    requires |word| > 0 && ValueBytesFrom(word, 0)
    requires IsFieldVchar(word[0]) && IsFieldVchar(word[|word| - 1])
    ensures IsTrimmedValue(word)
  {
    ValueBytesFromSound(word, 0);
  }

  lemma MozillaWordsAreValues()
    ensures IsTrimmedValue(Mozilla50) && IsTrimmedValue(Windows) && IsTrimmedValue(Nt)
    ensures IsTrimmedValue(Version61) && IsTrimmedValue(Win64) && IsTrimmedValue(X64)
    ensures IsTrimmedValue(Rv47) && IsTrimmedValue(Gecko) && IsTrimmedValue(Firefox47)
  {
    WordIsValue(Mozilla50);
    WordIsValue(Windows);
    WordIsValue(Nt);
    WordIsValue(Version61);
    WordIsValue(Win64);
    WordIsValue(X64);
    WordIsValue(Rv47);
    WordIsValue(Gecko);
    WordIsValue(Firefox47);
  }

  lemma MozillaIsValue()
    ensures IsTrimmedValue(Mozilla())
  {
    MozillaWordsAreValues();
    var sp: seq<Byte> := [SP];
    assert IsOws(sp);
    var v := Mozilla50;
    TrimmedValuesJoin(v, sp, Windows);
    v := v + sp + Windows;
    TrimmedValuesJoin(v, sp, Nt);
    v := v + sp + Nt;
    TrimmedValuesJoin(v, sp, Version61);
    v := v + sp + Version61;
    TrimmedValuesJoin(v, sp, Win64);
    v := v + sp + Win64;
    TrimmedValuesJoin(v, sp, X64);
    v := v + sp + X64;
    TrimmedValuesJoin(v, sp, Rv47);
    v := v + sp + Rv47;
    TrimmedValuesJoin(v, sp, Gecko);
    v := v + sp + Gecko;
    TrimmedValuesJoin(v, sp, Firefox47);
    v := v + sp + Firefox47;
    assert v == Mozilla();
  }

  lemma ContentTypeIsName()
    ensures AllTchar(ContentType)
  {
    assert TcharFrom(ContentType, 0);
    TcharFromSound(ContentType, 0);
  }

  lemma TextHtmlIsValue()
    ensures IsTrimmedValue(TextHtml)
  {
    assert ValueBytesFrom(TextHtml, 0);
    ValueBytesFromSound(TextHtml, 0);
  }

  /** "Content-Type: text/html" */
  function ContentTypeLine(): (line: seq<Byte>) {
    ContentType + [COLON, SP] + TextHtml
  }

  /** "Content-Type: text/html\r\nContent-Length: 1234\r\n" and the same block
      with bare LF terminators give the same two lines. */
  lemma TwoLinesEitherTerminator()
    ensures Lines(ContentTypeLine() + [CR, LF] + ContentLengthLine + [CR, LF]) ==
      [ContentTypeLine(), ContentLengthLine]
    ensures Lines(ContentTypeLine() + [LF] + ContentLengthLine + [LF]) ==
      [ContentTypeLine(), ContentLengthLine]
  {
    var lines := [ContentTypeLine(), ContentLengthLine];
    assert LF !in ContentTypeLine();
    assert lines[1..] == [ContentLengthLine] && lines[1..][1..] == [];
    TerminatedTwo(ContentTypeLine(), ContentLengthLine, [CR, LF]);
    TerminatedTwo(ContentTypeLine(), ContentLengthLine, [LF]);
    LfTerminatedRoundTrip(lines);
  }

  lemma TerminatedTwo(first: seq<Byte>, second: seq<Byte>, terminator: seq<Byte>)
    ensures Terminated([first, second], terminator) == first + terminator + second + terminator
  {
    var lines := [first, second];
    assert lines[1..] == [second] && lines[1..][1..] == [];
    assert Terminated([second], terminator) == second + terminator + Terminated([], terminator);
  }

  /** "A\r\n\r\n" gives ["A", ""]: the piece "\r" survives the emptiness filter
      and becomes an empty line once its CR is stripped. */
  lemma CrOnlyPieceGivesEmptyLine()
    ensures Lines([0x41, CR, LF, CR, LF]) == [[0x41], []]
  {
    var lines: seq<seq<Byte>> := [[0x41], []];
    TerminatedTwo([0x41], [], [CR, LF]);
    assert [0x41] + [CR, LF] + [] + [CR, LF] == [0x41, CR, LF, CR, LF];
    CrlfTerminatedRoundTrip(lines);
  }

  /** "Content-Type:text/html" gives ("Content-Type", "text/html"). */
  lemma ContentTypeWithoutOws()
    ensures NameValue(ContentType + [COLON] + TextHtml) == Success((ContentType, TextHtml))
  {
    ContentTypeIsName();
    TextHtmlIsValue();
    OwsStrippedFromValue(ContentType, [], TextHtml, []);
    assert ContentType + [COLON] + [] + TextHtml + [] == ContentType + [COLON] + TextHtml;
  }

  /** "Content-Type: text/html " gives ("Content-Type", "text/html"). */
  lemma ContentTypeWithOws()
    ensures NameValue(ContentType + [COLON] + [SP] + TextHtml + [SP]) == Success((ContentType, TextHtml))
  {
    ContentTypeIsName();
    TextHtmlIsValue();
    OwsStrippedFromValue(ContentType, [SP], TextHtml, [SP]);
  }

  /** "Content-Type:   text/html   " gives ("Content-Type", "text/html"). */
  lemma ContentTypeWithMultipleOws()
    ensures NameValue(ContentType + [COLON] + [SP, SP, SP] + TextHtml + [SP, SP, SP]) ==
      Success((ContentType, TextHtml))
  {
    ContentTypeIsName();
    TextHtmlIsValue();
    OwsStrippedFromValue(ContentType, [SP, SP, SP], TextHtml, [SP, SP, SP]);
  }

  /** "Content-T\nype: text/html" fails on the LF inside the name. */
  lemma LfInNameRejected()
    ensures NameValue(ContentType[..9] + [LF] + ContentType[9..] + [COLON, SP] + TextHtml) ==
      Failure(InvalidHeaderKeyChar)
  {
    ContentTypeIsName();
    assert AllTchar(ContentType[..9]);
    KeyCharRejected(ContentType[..9], LF, ContentType[9..] + [COLON, SP] + TextHtml);
    assert ContentType[..9] + [LF] + ContentType[9..] + [COLON, SP] + TextHtml ==
      ContentType[..9] + [LF] + (ContentType[9..] + [COLON, SP] + TextHtml);
  }

  /** "Content-Type" has no colon. */
  lemma NoColonRejected()
    ensures NameValue(ContentType) == Failure(ColonNotFound)
  {
    ContentTypeIsName();
    ColonNotFoundIff(ContentType);
  }

  /** "Content-Type: text/ht\nml" fails on the LF inside the value. */
  lemma LfInValueRejected()
    ensures NameValue(ContentType + [COLON] + [SP] + TextHtml[..7] + [LF] + TextHtml[7..]) ==
      Failure(InvalidHeaderValue)
  {
    ContentTypeIsName();
    ControlByteInValueRejected(ContentType, [SP] + TextHtml[..7], LF, TextHtml[7..]);
    assert ContentType + [COLON] + [SP] + TextHtml[..7] + [LF] + TextHtml[7..] ==
      ContentType + [COLON] + ([SP] + TextHtml[..7]) + [LF] + TextHtml[7..];
  }

  /** The User-Agent line keeps every interior space of its value. */
  lemma UserAgentValueKept()
    ensures NameValue(UserAgent + [COLON] + [SP] + Mozilla()) == Success((UserAgent, Mozilla()))
  {
    assert TcharFrom(UserAgent, 0);
    TcharFromSound(UserAgent, 0);
    MozillaIsValue();
    OwsStrippedFromValue(UserAgent, [SP], Mozilla(), []);
    assert UserAgent + [COLON] + [SP] + Mozilla() + [] == UserAgent + [COLON] + [SP] + Mozilla();
  }

  lemma ContentLengthIsName()
    ensures AllTchar(ContentLength)
  {
    assert TcharFrom(ContentLength, 0);
    TcharFromSound(ContentLength, 0);
  }

  /** "Content-Length: 12" gives ("Content-Length", "2"): the two bytes of the
      value are two repetitions of capture group 1, and the group reports only
      the last one. */
  lemma TwoByteValueLosesFirstByte()
    ensures NameValue(ContentLength + [COLON] + [SP] + [0x31, 0x32]) == Success((ContentLength, [0x32]))
  {
    ContentLengthIsName();
    var value: seq<Byte> := [0x31, 0x32];
    assert IsTrimmedValue(value) && value[1..] == [0x32];
    OwsStrippedFromValue(ContentLength, [SP], value, []);
    assert ContentLength + [COLON] + [SP] + value + [] == ContentLength + [COLON] + [SP] + value;
  }

  /** The value between the OWS of " 12" is "12". */
  lemma TwoByteValueTrimmed()
    ensures TrimmedFieldValue([SP, 0x31, 0x32]) == Some(Some([0x31, 0x32]))
  {
    var value: seq<Byte> := [0x31, 0x32];
    assert IsTrimmedValue(value);
    OwsAroundIsStripped([SP], value, []);
    assert [SP] + value + [] == [SP, 0x31, 0x32];
  }

  /** ":text/html" has an empty name and is accepted; "Content-Type:" and
      "Content-Type:   " are rejected. */
  lemma EmptyNameAndEmptyValue()
    ensures NameValue([COLON] + TextHtml) == Success(([], TextHtml))
    ensures NameValue(ContentType + [COLON]) == Failure(InvalidHeaderValue)
    ensures NameValue(ContentType + [COLON] + [SP, SP, SP]) == Failure(InvalidHeaderValue)
  {
    TextHtmlIsValue();
    EmptyNameAccepted(TextHtml);
    ContentTypeIsName();
    EmptyValueRejected(ContentType, []);
    assert ContentType + [COLON] + [] == ContentType + [COLON];
    EmptyValueRejected(ContentType, [SP, SP, SP]);
  }
}
