# heleven header grammar, modelled in Dafny

This project models `src/parsers.rs` of heleven, the layer that validates and splits raw HTTP header blocks. It has three parts:

- **Byte classifiers** (`impl CharABNF for u8`): one predicate per byte class. They cover the core rules of RFC 5234, Appendix B.1, and the `tchar` class of RFC 7230, section 3.2.6. Module `CharAbnf`, file `abnf.dfy`.
- **Line extractor** (`extract_header_lines`): splits a block on LF, drops the empty pieces, then strips one trailing CR from each remaining piece. Module `HeaderLines`, file `lines.dfy`.
- **Name/value splitter** (`extract_header_name_value`): scans for the first colon and fails fast on any non-tchar byte before it. It then matches the rest of the line against the field-value pattern `FIELD_VALUE_WITH_OWS` and returns capture group 1 as the value. Modules `FieldValue` (`field_value.dfy`) and `HeaderFields` (`fields.dfy`).

Bytes are the newtype `Byte` (0..255), and buffers are `seq<Byte>`. `ParseError` (src/parsers.rs:116-122) is the datatype `HeaderFields.ParseError`, with the same four constructors in the same order. Results that the source returns as borrowed sub-slices are sequences equal to those sub-slices. Errors use the `Result` datatype of `wrappers.dfy`. The source's test cases are lemmas in `header_examples.dfy`.

The two imperative functions are methods proved against specification functions:

- `ExtractHeaderLines` has a `for` loop over the pieces with a push per piece, proved equal to `Lines`.
- `ExtractHeaderNameValue` has a `while` loop with an early return and a `break`, proved equal to `NameValue`.

The properties are proved about those functions:

- splitting and joining are inverse;
- no line contains LF;
- empty lines come exactly from pieces that are a lone CR;
- CRLF- and LF-terminated blocks give the same lines;
- the error kinds and their precedence are fixed;
- the exact shape of a successful split;
- re-splitting `name ":" value` gives the same pair back.

The regular expression is replaced by two functions on bytes:

- `TrimmedFieldValue` finds the value between the leading and trailing OWS.
- `FieldValueCapture` is what capture group 1 holds.

Group 1 sits inside `( ... )*`, and the engine reports only the last repetition of such a group. The model reads the pattern byte by byte (see the Unicode line under Left out), and in that reading a repetition is one field-vchar byte, or at least three bytes with a field-vchar at each end. So a value of one byte, or of three or more, is one repetition and is returned whole. A two-byte value is two one-byte repetitions, and only its second byte is returned (see Findings). `LastRepetition` states this choice. On ASCII values this is also what the source does.

The pattern is also written out as a grammar (`IsFieldContent`, `IsFieldContentRep`, `MatchesFieldValueWithOws`). Lemmas prove that the grammar matches exactly when the capture is not `None`. They also prove that any match whose repetition is non-empty spans exactly the trimmed value.

Behaviour of the code as written, where it departs from what a reader of RFC 7230 might expect:

- **Empty names.** A line that starts with `:` has an empty field-name, and it is accepted.
- **Empty values.** An empty or whitespace-only value gives `InvalidHeaderValue`, because capture group 1 then takes no part in the match.
- **Lone CR pieces.** The emptiness filter runs before CR stripping, so a piece that is exactly CR becomes an empty line. `"A\r\n\r\n"` gives `["A", ""]`.
- **`is_crlf`.** It is false for every byte (see Findings).
- **Two-byte values.** `Content-Length: 12` gives the value `2` (see Findings).
- **`InvalidHeaderValueChar`.** It is declared but never returned.

## Model

| member | source | states |
|---|---|---|
| `CharAbnf.IsAlpha` | src/parsers.rs:32-35 | ALPHA: 0x41-0x5A or 0x61-0x7A |
| `CharAbnf.IsBit` | src/parsers.rs:37-40 | BIT: 0x30 or 0x31 |
| `CharAbnf.IsChar` | src/parsers.rs:42-45 | CHAR: 0x01-0x7F |
| `CharAbnf.IsCr` | src/parsers.rs:47-50 | CR: 0x0D |
| `CharAbnf.IsCrlf` | src/parsers.rs:52-55 | the one-byte CRLF test as written: the byte is 0x0D and 0x0A at once |
| `CharAbnf.IsCtl` | src/parsers.rs:57-60 | CTL: 0x00-0x1F or 0x7F |
| `CharAbnf.IsDigit` | src/parsers.rs:62-65 | DIGIT: 0x30-0x39 |
| `CharAbnf.IsDquote` | src/parsers.rs:67-70 | DQUOTE: 0x22 |
| `CharAbnf.IsHexdig` | src/parsers.rs:72-78 | HEXDIG: 0x30-0x39, 0x41-0x46 or 0x61-0x66 |
| `CharAbnf.IsHtab` | src/parsers.rs:80-83 | HTAB: 0x09 |
| `CharAbnf.IsLf` | src/parsers.rs:85-88 | LF: 0x0A |
| `CharAbnf.IsOctet` | src/parsers.rs:90-93 | OCTET: any byte |
| `CharAbnf.IsSp` | src/parsers.rs:95-98 | SP: 0x20 |
| `CharAbnf.IsVchar` | src/parsers.rs:100-103 | VCHAR: 0x21-0x7E |
| `CharAbnf.IsWsp` | src/parsers.rs:105-108 | WSP: SP or HTAB |
| `CharAbnf.IsTchar` | src/parsers.rs:110-113 | tchar: ALPHA, DIGIT or one of the fifteen symbols of the source |
| `CharAbnf.TcharIsVcharExceptDelimiters` | src/parsers.rs:110-113 | tchar is exactly "any VCHAR except the delimiters `"(),/:;<=>?@[\]{}`" |
| `CharAbnf.TcharExcludesStructure` | src/parsers.rs:110-113 | every tchar is a VCHAR; colon, SP, HTAB, CR and LF are not tchar |
| `CharAbnf.CrlfNeverHolds` | src/parsers.rs:52-55 | the single-byte CRLF test is false for every byte, CR and LF included |
| `CharAbnf.OctetAlwaysHolds` | src/parsers.rs:90-93 | every byte is an OCTET |
| `CharAbnf.ClassRelations` | src/parsers.rs:32-108 | BIT ⊆ DIGIT ⊆ HEXDIG; ALPHA ⊆ VCHAR ⊆ CHAR; CTL and VCHAR are disjoint; WSP ⇔ SP ∨ HTAB; CHAR = (CTL − NUL) ∪ SP ∪ VCHAR; DQUOTE is a VCHAR but not a tchar |
| `CharAbnf.IsCrlfPair` | src/parsers.rs:52-55 | the corrected CRLF test, on two bytes: CR followed by LF |
| `CharAbnf.CrlfPairExactly` | src/parsers.rs:52-55 | the corrected two-byte CRLF test holds exactly for (CR, LF), and neither byte passes the one-byte test |
| `HeaderLines.SplitLf` | src/parsers.rs:127-128 | the pieces between LF bytes: at least one, none containing LF, joined back with LF they give the input |
| `HeaderLines.SplitLfAfterPiece` | src/parsers.rs:127-128 | an LF-free prefix followed by LF is split off as the first piece |
| `HeaderLines.SplitLfOfPiece` | src/parsers.rs:127-128 | an LF-free buffer is a single piece |
| `HeaderLines.SplitJoinRoundTrip` | src/parsers.rs:127-128 | joining LF-free pieces with LF and splitting gives the pieces back |
| `HeaderLines.StripCr` | src/parsers.rs:131-135 | at most one trailing CR is removed, and it is removed whenever present |
| `HeaderLines.LinesOf` | src/parsers.rs:127-136 | the lines of a sequence of pieces: empty pieces dropped, then one trailing CR stripped from each other piece; at most one line per piece |
| `HeaderLines.Lines` | src/parsers.rs:124-139 | the lines of a header block: `LinesOf` of its LF-separated pieces |
| `HeaderLines.ExtractHeaderLines` | src/parsers.rs:124-139 | the loop returns the CR-stripped non-empty pieces in input order; no line contains LF; the number of empty lines equals the number of pieces that are exactly CR |
| `HeaderLines.LinesOfAppend` | src/parsers.rs:127-136 | extraction distributes over concatenation of pieces, which keeps input order |
| `HeaderLines.LinesHaveNoLf` | src/parsers.rs:127-136 | no extracted line contains LF |
| `HeaderLines.EmptyLineIffCrPiece` | src/parsers.rs:127-133 | an empty line is produced exactly once for each piece that is a lone CR (filter before strip) |
| `HeaderLines.CrlfTerminatedRoundTrip` | src/parsers.rs:124-139 | LF-free lines each terminated by CR LF are extracted unchanged, empty lines included |
| `HeaderLines.LfTerminatedRoundTrip` | src/parsers.rs:124-139 | non-empty LF-free lines not ending in CR, each terminated by LF, are extracted unchanged, and give the same result as with CR LF |
| `HeaderLines.CrlfPairEndsLine` | src/parsers.rs:124-139 | a line followed by a (corrected) CRLF pair is extracted as exactly that line |
| `FieldValue.IsFieldVchar` | src/parsers.rs:6 | field-vchar, the class `[\x21-\x7e\x80-\xff]` read byte by byte: 0x21-0x7E or 0x80-0xFF |
| `FieldValue.IsValueByte` | src/parsers.rs:7 | the class `[ \t[\x21-\x7e\x80-\xff]]`: SP, HTAB or field-vchar |
| `FieldValue.FieldVcharIsNotWsp` | src/parsers.rs:6-7 | field-vchar and SP/HTAB are disjoint and together make up the value alphabet |
| `FieldValue.OwsEnd` | src/parsers.rs:4 | the end of a maximal run of SP/HTAB starting at an index |
| `FieldValue.OwsStart` | src/parsers.rs:9 | the start of a maximal run of SP/HTAB ending at an index |
| `FieldValue.TrimmedFieldValue` | src/parsers.rs:3-10 | the value between the OWS: None iff some byte is not SP, HTAB or field-vchar; present iff some byte is a field-vchar; it is then a trimmed value with only OWS around it |
| `FieldValue.LastRepetition` | src/parsers.rs:5-8 | the last repetition of group 1 over a trimmed value: one repetition that ends it, preceded by repetitions; the whole value when the value is one repetition, otherwise the only possible last repetition; it differs from the value exactly when the value is two bytes long |
| `FieldValue.TrimmedIsOneOrTwoRepetitions` | src/parsers.rs:5-8 | a trimmed value is one repetition of group 1 iff it is not two bytes long; a two-byte value is two one-byte repetitions |
| `FieldValue.FieldContentIsTrimmed` | src/parsers.rs:5-8 | one repetition of group 1 is a trimmed value and is never two bytes long |
| `FieldValue.FieldValueCapture` | src/parsers.rs:3-10 | what `captures` and `get(1)` yield: the match fails iff some byte is not SP, HTAB or field-vchar; group 1 is present iff some byte is a field-vchar; it is then one repetition of the group, equal to the trimmed value, or the trimmed value's second byte when that value has two bytes |
| `FieldValue.OwsAroundIsStripped` | src/parsers.rs:3-10 | for any OWS before and after a trimmed value, the value between the OWS is exactly that value (surrounding OWS stripped, interior kept); group 1 is that value, or its second byte when it has two bytes |
| `FieldValue.CaptureOfOwsAround` | src/parsers.rs:3-10 | the same, for a value found anywhere with OWS around it |
| `FieldValue.CaptureAt` | src/parsers.rs:3-10 | the same, for a given offset of the value |
| `FieldValue.TrimmedValuesJoin` | src/parsers.rs:7 | two values joined by SP/HTAB form one value: interior whitespace is part of the value |
| `FieldValue.IsFieldContent` | src/parsers.rs:5-8 | one repetition of group 1: a field-vchar, optionally followed by SP/HTAB/field-vchar bytes and a final field-vchar |
| `FieldValue.IsFieldContentRep` | src/parsers.rs:5-8 | zero or more repetitions of group 1 |
| `FieldValue.MatchesFieldValueWithOws` | src/parsers.rs:3-10 | the anchored pattern: OWS, repetitions of group 1, OWS |
| `FieldValue.FieldContentRepIsTrimmed` | src/parsers.rs:5-8 | a non-empty repetition of the group body begins and ends with a field-vchar and holds only value bytes |
| `FieldValue.TrimmedIsFieldContentRep` | src/parsers.rs:5-8 | every such trimmed value is a repetition of the group body |
| `FieldValue.FieldContentRepIff` | src/parsers.rs:5-8 | the repetition `(field-vchar ([ \t field-vchar]+ field-vchar)?)*` matches exactly the empty sequence and the trimmed values |
| `FieldValue.PatternMatchesIff` | src/parsers.rs:3-10 | the anchored pattern matches exactly when the capture is not None |
| `FieldValue.MatchIsValueBytes` | src/parsers.rs:3-10 | a match contains only SP, HTAB and field-vchar bytes |
| `FieldValue.CaptureIsMatch` | src/parsers.rs:3-10 | whenever the capture is not None, the pattern matches |
| `FieldValue.MatchedRepetitionIsCapture` | src/parsers.rs:5-8 | in any match whose repetition is non-empty, the repetition spans exactly the trimmed value; group 1 holds that span, or its last byte when the span has two bytes |
| `FieldValue.CaptureMeansRepetition` | src/parsers.rs:3-10 | the converse: whenever group 1 holds a value, the repetition is non-empty in every match |
| `FieldValue.FieldVcharBetween` | src/parsers.rs:4-9 | a field-vchar of the value cannot lie in the leading or trailing `[ \t]*`, so the span between them is non-empty |
| `HeaderFields.TcharEnd` | src/parsers.rs:144-153 | the end of the maximal run of tchar bytes from an index |
| `HeaderFields.TcharEndIs` | src/parsers.rs:144-153 | the tchar run ends at the first non-tchar byte (or the end of the line) |
| `HeaderFields.ColonEndsName` | src/parsers.rs:144-148 | a colon preceded only by tchar bytes is where the scan stops |
| `HeaderFields.NameValue` | src/parsers.rs:141-171 | the result of the split; on success the name is the prefix of the line before a colon, all tchar, and the value is one repetition of group 1 |
| `HeaderFields.ExtractHeaderNameValue` | src/parsers.rs:141-171 | the scan loop with fail-fast return and break, followed by the value match, returns what `NameValue` specifies |
| `HeaderFields.KeyCharErrorIff` | src/parsers.rs:144-153 | InvalidHeaderKeyChar iff some byte that is neither tchar nor colon occurs before the first colon |
| `HeaderFields.ColonNotFoundIff` | src/parsers.rs:144-155 | ColonNotFound iff every byte is a tchar (so there is no colon); a colon-free line gives ColonNotFound or InvalidHeaderKeyChar, nothing else |
| `HeaderFields.NeverValueCharError` | src/parsers.rs:116-122 | InvalidHeaderValueChar is never returned |
| `HeaderFields.ValueErrorIff` | src/parsers.rs:155-167 | InvalidHeaderValue iff the name before the first colon is all tchar and the rest is not (all SP/HTAB/field-vchar with at least one field-vchar) |
| `HeaderFields.ValueErrorAt` | src/parsers.rs:155-167 | a tchar name, a colon and an invalid value after it give InvalidHeaderValue |
| `HeaderFields.SuccessIff` | src/parsers.rs:155-170 | success with (name, value) iff the line is name, colon, then a trimmed value t with OWS around it, and value is t, or t's second byte when t has two bytes; name all tchar (possibly empty); t non-empty, only value bytes, field-vchar at both ends |
| `HeaderFields.SuccessShape` | src/parsers.rs:155-170 | the "only if" half of SuccessIff; the value returned is a trimmed value and one repetition of group 1 |
| `HeaderFields.SuccessFromShape` | src/parsers.rs:155-170 | the "if" half of SuccessIff |
| `HeaderFields.OwsStrippedFromValue` | src/parsers.rs:157-170 | OWS of any length before and after a value is stripped; the value is returned verbatim, except that of a two-byte value only the second byte is returned |
| `HeaderFields.KeyCharRejected` | src/parsers.rs:150-152 | the first name byte that is neither tchar nor colon decides InvalidHeaderKeyChar, whatever follows |
| `HeaderFields.RoundTrip` | src/parsers.rs:141-171 | splitting the re-joined `name ":" value` of a successful split gives the same pair |
| `HeaderFields.EmptyNameAccepted` | src/parsers.rs:144-168 | a line starting with a colon succeeds with an empty name, and with the value as the rest of the split gives it |
| `HeaderFields.EmptyValueRejected` | src/parsers.rs:165-167 | an empty or whitespace-only value gives InvalidHeaderValue |
| `HeaderFields.ControlByteInValueRejected` | src/parsers.rs:160-162 | a CTL byte other than HTAB after the colon gives InvalidHeaderValue |
| `HeaderExamples.TwoLinesEitherTerminator` | src/parsers.rs:178-198 | the CRLF and LF forms of the two-line test block both give the two lines |
| `HeaderExamples.CrOnlyPieceGivesEmptyLine` | src/parsers.rs:127-133 | `"A\r\n\r\n"` gives `["A", ""]` |
| `HeaderExamples.ContentTypeWithoutOws` | src/parsers.rs:200-208 | `Content-Type:text/html` splits into `Content-Type` and `text/html` |
| `HeaderExamples.ContentTypeWithOws` | src/parsers.rs:210-218 | `Content-Type: text/html ` gives the same pair |
| `HeaderExamples.ContentTypeWithMultipleOws` | src/parsers.rs:220-228 | `Content-Type:   text/html   ` gives the same pair |
| `HeaderExamples.LfInNameRejected` | src/parsers.rs:230-238 | an LF inside the name gives InvalidHeaderKeyChar |
| `HeaderExamples.NoColonRejected` | src/parsers.rs:240-248 | `Content-Type` gives ColonNotFound |
| `HeaderExamples.LfInValueRejected` | src/parsers.rs:250-258 | an LF inside the value gives InvalidHeaderValue |
| `HeaderExamples.UserAgentValueKept` | src/parsers.rs:260-271 | the User-Agent value keeps all its interior spaces |
| `HeaderExamples.TwoByteValueLosesFirstByte` | src/parsers.rs:165-168 | `Content-Length: 12` splits into `Content-Length` and `2` |
| `HeaderExamples.TwoByteValueTrimmed` | src/parsers.rs:5-8 | the value between the OWS of ` 12` is `12` |
| `HeaderExamples.EmptyNameAndEmptyValue` | src/parsers.rs:144-167 | `:text/html` is accepted with an empty name; `Content-Type:` and `Content-Type:   ` give InvalidHeaderValue |

## Findings

| source | as written | input that shows it | evidently intended | confidence | as-written member | corrected member |
|---|---|---|---|---|---|---|
| src/parsers.rs:52-55 | `is_crlf` tests one byte for being 0x0D and 0x0A at once | the byte 0x0D (and every other byte) gives false | CRLF recognised as the two-byte sequence CR LF | high; not executed | `CharAbnf.CrlfNeverHolds` | `CharAbnf.CrlfPairExactly` |
| src/parsers.rs:5-8 | group 1 is inside `( ... )*`, and `get(1)` at lines 165-168 returns only its last repetition; a two-byte ASCII value is two repetitions | `Content-Length: 12` gives the value `2` | the whole value between the OWS, `12` | high; not executed | `HeaderExamples.TwoByteValueLosesFirstByte` | `FieldValue.TrimmedFieldValue` |

`is_crlf` is called nowhere in the source, so nothing else depends on the defect. The corrected predicate `IsCrlfPair` is what `HeaderLines.CrlfPairEndsLine` uses.

The two-byte value defect is on the path every header line takes, so `NameValue` and `ExtractHeaderNameValue` keep the behaviour as written: they return `FieldValueCapture`. The corrected value is `TrimmedFieldValue`. Its properties are proved alongside the as-written ones: `OwsAroundIsStripped`, `CaptureOfOwsAround`, `CaptureAt` and `MatchedRepetitionIsCapture` state both, and `FieldValueCapture` differs from it only on two-byte values. A pattern that gives the intended value is `^[ \t]*((?:fv([ \t fv]+fv)?)+)?[ \t]*$`, with `fv` the field-vchar class. Its group 1 spans every repetition and takes no part when there is none. A group written directly around `(...)*` is not enough: it would take part, empty, in a whitespace-only value, which would then be accepted with an empty value instead of giving `InvalidHeaderValue`.

## Left out

- The `regex` crate (compiling and running `FIELD_VALUE_WITH_OWS`), including the `expect` panic at src/parsers.rs:157. `FieldValueCapture` replaces it, and the pattern is kept as a ghost grammar.
- The engine's search for a match. The model does not step through the engine's priority order. `LastRepetition` states the outcome that greedy, leftmost-first matching gives here. A value that is one repetition is taken whole by the first repetition. A two-byte value has only one possible last repetition.
- Unicode mode of `regex::bytes`. The pattern is compiled in Unicode mode, where `\x80-\xff` denotes the UTF-8 encodings of U+0080–U+00FF, not raw bytes. The model follows the byte-level intent of the comment at src/parsers.rs:6 instead: field-vchar is 0x21–0x7E or 0x80–0xFF. On values with bytes of 0x80 or above, the model may accept where the compiled pattern rejects. Examples are a lone 0x80, or the UTF-8 encoding of a character above U+00FF. On ASCII values the byte classes of the two agree. On non-ASCII values that both accept, the returned value can still differ. The compiled pattern counts the repetitions of group 1 per character, and the model counts them per byte. For `X: é` (bytes C3 A9), the source has one repetition and returns C3 A9, while the model sees two bytes and returns A9. For `X: aé` (bytes 61 C3 A9), the source has two repetitions and returns C3 A9, while the model sees one three-byte repetition and returns all three bytes.
- Lifetimes and borrowing. The results are sequences equal to the sub-slices the source borrows; aliasing with the input buffer is not represented.
- The `CharABNF` trait is not modelled as such; its methods are free predicates on `Byte`.
- The derived `Debug` and `PartialEq` of `ParseError` are not modelled.
- The `#[cfg(test)]` module. Its cases appear only as lemmas in `header_examples.dfy`, with the byte strings built from their words.
