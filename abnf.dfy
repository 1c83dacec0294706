/** The single-byte character classes of RFC 5234, Appendix B.1 (the ABNF core
    rules), and the `tchar` class of RFC 7230, section 3.2.6, as implemented by
    `impl CharABNF for u8` in src/parsers.rs. */
module CharAbnf {

  /** An unsigned 8-bit value (Rust's `u8`). */
  newtype Byte = b: int | 0 <= b < 0x100

  const HTAB: Byte := 0x09
  const LF: Byte := 0x0A
  const CR: Byte := 0x0D
  const SP: Byte := 0x20
  const DQUOTE: Byte := 0x22
  const COLON: Byte := 0x3A

  /** ALPHA: A-Z / a-z. */
  predicate IsAlpha(b: Byte) {
    0x41 <= b <= 0x5A || 0x61 <= b <= 0x7A
  }

  /** BIT: "0" / "1". */
  predicate IsBit(b: Byte) {
    b == 0x30 || b == 0x31
  }

  /** CHAR: any 7-bit US-ASCII character except NUL. */
  predicate IsChar(b: Byte) {
    0x01 <= b <= 0x7F
  }

  /** CR: carriage return. */
  predicate IsCr(b: Byte) {
    b == 0x0D
  }

  /** CRLF as the source writes it: one byte that would have to be CR and LF at
      once, so it never holds (see CrlfNeverHolds and the corrected IsCrlfPair). */
  predicate IsCrlf(b: Byte) {
    b == 0x0D && b == 0x0A
  }

  /** CTL: the controls 0x00-0x1F and DEL. */
  predicate IsCtl(b: Byte) {
    0x00 <= b <= 0x1F || b == 0x7F
  }

  /** DIGIT: 0-9. */
  predicate IsDigit(b: Byte) {
    0x30 <= b <= 0x39
  }

  /** DQUOTE: the double quote. */
  predicate IsDquote(b: Byte) {
    b == 0x22
  }

  /** HEXDIG: 0-9 / A-F / a-f. */
  predicate IsHexdig(b: Byte) {
    0x30 <= b <= 0x39 || 0x41 <= b <= 0x46 || 0x61 <= b <= 0x66
  }

  /** HTAB: horizontal tab. */
  predicate IsHtab(b: Byte) {
    b == 0x09
  }

  /** LF: line feed. */
  predicate IsLf(b: Byte) {
    b == 0x0A
  }

  /** OCTET: any 8 bits of data. */
  predicate IsOctet(b: Byte) {
    0x00 <= b <= 0xFF
  }

  /** SP: space. */
  predicate IsSp(b: Byte) {
    b == 0x20
  }

  /** VCHAR: the visible (printing) characters. */
  predicate IsVchar(b: Byte) {
    0x21 <= b <= 0x7E
  }

  /** WSP: space or horizontal tab. */
  predicate IsWsp(b: Byte) {
    b == 0x20 || b == 0x09
  }

  /** The symbols that `tchar` admits besides ALPHA and DIGIT: !#$%&'*+-.^_`|~ */
  const TcharSymbols: seq<Byte> :=
    [0x21, 0x23, 0x24, 0x25, 0x26, 0x27, 0x2A, 0x2B, 0x2D, 0x2E, 0x5E, 0x5F, 0x60, 0x7C, 0x7E]

  /** tchar: a token character, the alphabet of a field-name. */
  predicate IsTchar(b: Byte) {
    IsAlpha(b) || IsDigit(b) || b in TcharSymbols
  }

  /** The delimiters of RFC 7230, section 3.2.6: DQUOTE and (),/:;<=>?@[\]{} */
  const Delimiters: seq<Byte> :=
    [0x22, 0x28, 0x29, 0x2C, 0x2F, 0x3A, 0x3B, 0x3C, 0x3D, 0x3E, 0x3F, 0x40, 0x5B, 0x5C, 0x5D, 0x7B, 0x7D]

  /** RFC 7230 defines tchar as "any VCHAR, except delimiters"; the enumerated
      class of the source is exactly that set. */
  lemma TcharIsVcharExceptDelimiters(b: Byte)
    ensures IsTchar(b) <==> IsVchar(b) && b !in Delimiters
  {
  }

  /** A field-name made of tchar bytes can hold neither the name/value
      delimiter nor whitespace nor a line terminator. */
  lemma TcharExcludesStructure(b: Byte)
    ensures IsTchar(b) ==> IsVchar(b)
    ensures !IsTchar(COLON) && !IsTchar(SP) && !IsTchar(HTAB)
    ensures !IsTchar(CR) && !IsTchar(LF)
  {
  }

  /** The single-byte CRLF predicate is false for every byte, CR and LF included. */
  lemma CrlfNeverHolds(b: Byte)
    ensures !IsCrlf(b)
    ensures IsCr(CR) && !IsCrlf(CR) && IsLf(LF) && !IsCrlf(LF)
  {
  }

  /** Every byte is an OCTET. */
  lemma OctetAlwaysHolds(b: Byte)
    ensures IsOctet(b)
  {
  }

  /** Inclusions and disjointness between the core classes. */
  lemma ClassRelations(b: Byte)
    ensures IsBit(b) ==> IsDigit(b)
    ensures IsDigit(b) ==> IsHexdig(b)
    ensures IsAlpha(b) ==> IsVchar(b)
    ensures IsVchar(b) ==> IsChar(b)
    ensures !(IsCtl(b) && IsVchar(b))
    ensures IsWsp(b) <==> IsSp(b) || IsHtab(b)
    ensures IsChar(b) <==> (IsCtl(b) && b != 0x00) || IsSp(b) || IsVchar(b)
    ensures IsDquote(b) ==> IsVchar(b) && !IsTchar(b)
  {
  }

  /** CRLF as RFC 5234 defines it: the two-byte sequence CR LF. */
  predicate IsCrlfPair(first: Byte, second: Byte) {
    IsCr(first) && IsLf(second)
  }

  /** The corrected predicate recognises exactly the pair (CR, LF), which the
      single-byte one cannot recognise from either of its bytes. */
  lemma CrlfPairExactly(first: Byte, second: Byte)
    ensures IsCrlfPair(first, second) <==> [first, second] == [CR, LF]
    ensures IsCrlfPair(first, second) ==> !IsCrlf(first) && !IsCrlf(second)
  {
    if [first, second] == [CR, LF] {
      assert first == [first, second][0];
    }
  }
}
