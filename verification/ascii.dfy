/** Bytes of a JavaScript source text and the ASCII character classes the scanners test. */
module Ascii {

  /** One byte of the source buffer. A byte value v is written as the character with code v,
      so that the source's byte literals (b'/', b'{', ...) read the same here. */
  type Byte = c: char | c as int < 256 witness ' '

  /** u8::is_ascii_digit */
  predicate IsAsciiDigit(c: Byte) {
    '0' <= c <= '9'
  }

  /** u8::is_ascii_alphabetic */
  predicate IsAsciiAlphabetic(c: Byte) {
    'a' <= c <= 'z' || 'A' <= c <= 'Z'
  }

  /** u8::is_ascii_alphanumeric */
  predicate IsAsciiAlphanumeric(c: Byte) {
    IsAsciiAlphabetic(c) || IsAsciiDigit(c)
  }

  /** u8::is_ascii_whitespace: space, tab, line feed, form feed and carriage return.
      Vertical tab is not whitespace for it. */
  predicate IsAsciiWhitespace(c: Byte) {
    c == ' ' || c == '\t' || c == '\n' || c as int == 0x0C || c == '\r'
  }

  /** The keyword kw occurs in b starting at index i (no clamping, no boundary test). */
  predicate MatchesAt(b: seq<Byte>, i: nat, kw: seq<Byte>) {
    i + |kw| <= |b| && forall k :: 0 <= k < |kw| ==> b[i + k] == kw[k]
  }

  /** The keyword kw occurs in b with its last byte at index p. */
  predicate EndsAt(b: seq<Byte>, p: nat, kw: seq<Byte>) {
    |kw| <= p + 1 && MatchesAt(b, p + 1 - |kw|, kw)
  }

  /** No two adjacent bytes of kw are equal. Every keyword the scanners look for has this shape,
      and it is what keeps the clamped reads of the matchers from producing false positives. */
  predicate NoAdjacentRepeat(kw: seq<Byte>) {
    forall k :: 0 <= k < |kw| - 1 ==> kw[k] != kw[k + 1]
  }
}
