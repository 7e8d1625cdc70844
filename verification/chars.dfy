/** Character classes and case mapping behind the correction pipeline's regular
    expressions and string methods.

    Python's `re` module and `str` methods are Unicode-aware. This model follows
    them exactly on the Latin-1 range (U+0000..U+00FF) and treats every character
    above it as a non-word, non-space character without case. */
module Chars {

  /** Python's `\s` and `str.isspace()` restricted to Latin-1. */
  predicate IsSpace(c: char) {
    c == ' ' || c == '\t' || c == '\n' || c == '\r' || c == '\U{B}' || c == '\U{C}'
    || ('\U{1C}' <= c <= '\U{1F}') || c == '\U{85}' || c == '\U{A0}'
  }

  /** Python's `\w` restricted to Latin-1: every character for which
      `str.isalnum()` holds (letters, digits, superscript digits, vulgar
      fractions) and the underscore. */
  predicate IsWordChar(c: char) {
    ('a' <= c <= 'z') || ('A' <= c <= 'Z') || ('0' <= c <= '9') || c == '_'
    || c == '\U{AA}' || c == '\U{B2}' || c == '\U{B3}' || c == '\U{B5}'
    || c == '\U{B9}' || c == '\U{BA}' || ('\U{BC}' <= c <= '\U{BE}')
    || ('\U{C0}' <= c <= '\U{FF}' && c != '\U{D7}' && c != '\U{F7}')
  }

  /** The sentence terminators `.`, `!`, `?` (the class `[.!?]`). */
  predicate IsTerminal(c: char) {
    c == '.' || c == '!' || c == '?'
  }

  /** The punctuation class `[,.!?;:]` of the spacing repair. */
  predicate IsPunct(c: char) {
    c == ',' || c == '.' || c == '!' || c == '?' || c == ';' || c == ':'
  }

  /** The class `[A-Za-z]`. */
  predicate IsAsciiLetter(c: char) {
    ('a' <= c <= 'z') || ('A' <= c <= 'Z')
  }

  predicate IsUpperLetter(c: char) {
    ('A' <= c <= 'Z') || ('\U{C0}' <= c <= '\U{DE}' && c != '\U{D7}')
  }

  predicate IsLowerLetter(c: char) {
    ('a' <= c <= 'z') || ('\U{E0}' <= c <= '\U{FE}' && c != '\U{F7}')
  }

  /** Lower-case mapping used for case-insensitive matching (`re.IGNORECASE`)
      and by `str.lower()`. */
  function Lower(c: char): (d: char)
    ensures IsUpperLetter(c) ==> IsLowerLetter(d) && d as int == c as int + 32
    ensures !IsUpperLetter(c) ==> d == c
  {
    if IsUpperLetter(c) then (c as int + 32) as char else c
  }

  /** Upper-case mapping of `str.upper()` for a single character. `ß`, `ÿ` and
      `µ`, whose Python upper-case forms are two characters or lie outside
      Latin-1, are left unchanged. */
  function Upper(c: char): (d: char)
    ensures IsLowerLetter(c) ==> IsUpperLetter(d) && d as int == c as int - 32
    ensures !IsLowerLetter(c) ==> d == c
  {
    if IsLowerLetter(c) then (c as int - 32) as char else c
  }

  /** Case-insensitive equality never relates characters of different word or
      space class, and relates a character without case only to itself. */
  lemma CaseFoldKeepsClass(c: char, d: char)
    requires Lower(c) == Lower(d)
    ensures IsWordChar(c) == IsWordChar(d)
    ensures IsSpace(c) == IsSpace(d)
    ensures !IsUpperLetter(c) && !IsLowerLetter(c) ==> c == d
  {
  }

  lemma UpperIdempotent(c: char)
    ensures Upper(Upper(c)) == Upper(c)
  {
  }

  /** Upper-casing never changes a character's word or space class or turns it
      into a terminator. */
  lemma UpperKeepsClass(c: char)
    ensures IsWordChar(Upper(c)) == IsWordChar(c)
    ensures IsSpace(Upper(c)) == IsSpace(c)
    ensures IsTerminal(Upper(c)) == IsTerminal(c)
    ensures IsPunct(Upper(c)) == IsPunct(c)
  {
  }
}
