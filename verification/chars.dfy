/**
 Character classes and case mappings. Python's regular expressions and string
 methods consult the Unicode database; the model keeps that database abstract
 as a `CharTable` of functions, fixes it exactly on ASCII, and asks of the rest
 only the facts real Unicode satisfies and the proofs need.
 */
module Chars {

  /** `\s` in a Python `str` pattern: the characters for which `str.isspace()`
      holds. */
  predicate IsSpace(c: char) {
    var n := c as int;
    (9 <= n <= 13) || (28 <= n <= 32) || n == 0x85 || n == 0xA0 || n == 0x1680
    || (0x2000 <= n <= 0x200A) || n == 0x2028 || n == 0x2029 || n == 0x202F
    || n == 0x205F || n == 0x3000
  }

  predicate IsAscii(c: char) {
    c as int < 128
  }

  predicate AsciiUpper(c: char) {
    'A' <= c <= 'Z'
  }

  predicate AsciiLowerLetter(c: char) {
    'a' <= c <= 'z'
  }

  predicate AsciiLetter(c: char) {
    AsciiUpper(c) || AsciiLowerLetter(c)
  }

  /** `\w` restricted to ASCII: letters, digits and the underscore. */
  predicate AsciiWord(c: char) {
    AsciiLetter(c) || ('0' <= c <= '9') || c == '_'
  }

  function AsciiToLower(c: char): char {
    if AsciiUpper(c) then (c as int + 32) as char else c
  }

  function AsciiToUpper(c: char): char {
    if AsciiLowerLetter(c) then (c as int - 32) as char else c
  }

  /** The Unicode facts the generator's string handling depends on:
      `isWord` is `\w`, `lower` is `str.lower`, `title` is the title-case
      mapping `str.title` applies to the first letter of a word, and `isCased`
      tells which characters continue a word for `str.title`. */
  datatype CharTable = CharTable(
    isWord: char -> bool,
    lower: char -> char,
    title: char -> char,
    isCased: char -> bool)

  /** What the model requires of a table: it agrees with Python on ASCII, no word
      character is whitespace, and lower-casing a lower-cased character changes
      nothing. */
  ghost predicate Coherent(t: CharTable) {
    && (forall c: char :: IsAscii(c) ==> t.isWord(c) == AsciiWord(c))
    && (forall c: char :: IsAscii(c) ==> t.lower(c) == AsciiToLower(c))
    && (forall c: char :: IsAscii(c) ==> t.title(c) == AsciiToUpper(c))
    && (forall c: char :: IsAscii(c) ==> t.isCased(c) == AsciiLetter(c))
    && (forall c: char :: t.isWord(c) ==> !IsSpace(c))
    && (forall c: char :: t.lower(t.lower(c)) == t.lower(c))
  }

  /** A table that knows only ASCII: every other character is neither a word
      character nor cased, and case mappings leave it alone. */
  predicate OnlyAsciiWord(c: char) {
    AsciiWord(c)
  }

  predicate OnlyAsciiCased(c: char) {
    AsciiLetter(c)
  }

  const AsciiTable: CharTable :=
    CharTable(OnlyAsciiWord, AsciiToLower, AsciiToUpper, OnlyAsciiCased)

  lemma AsciiTableCoherent()
    ensures Coherent(AsciiTable)
  {
  }

  /** `s.lower()`, one character at a time. */
  function Lower(t: CharTable, s: string): (r: string)
    ensures |r| == |s|
    ensures forall i :: 0 <= i < |s| ==> r[i] == t.lower(s[i])
  {
    seq(|s|, i requires 0 <= i < |s| => t.lower(s[i]))
  }

  /** `k` occurs in `s` starting at position `i`. */
  predicate MatchAt(s: string, k: string, i: int) {
    0 <= i <= |s| - |k| && s[i..i + |k|] == k
  }

  /** `k in s` for two strings. */
  predicate Contains(s: string, k: string) {
    exists i | 0 <= i <= |s| :: MatchAt(s, k, i)
  }

  /** `s.startswith(prefix)`. */
  predicate StartsWith(s: string, prefix: string) {
    |prefix| <= |s| && s[..|prefix|] == prefix
  }

  lemma LowerAppend(t: CharTable, a: string, b: string)
    ensures Lower(t, a + b) == Lower(t, a) + Lower(t, b)
  {
  }

  /** A keyword found in a string is still found once more text follows it. */
  lemma ContainsPrefix(s: string, rest: string, k: string)
    requires Contains(s, k)
    ensures Contains(s + rest, k)
  {
    var i :| 0 <= i <= |s| && MatchAt(s, k, i);
    assert (s + rest)[i..i + |k|] == s[i..i + |k|];
    assert MatchAt(s + rest, k, i);
  }
}
