/**
 * Character classes used by the keyword patterns of the intent classifier:
 * the word characters of `\b`, the whitespace of `\s`, and the ASCII case
 * folding that `re.IGNORECASE` applies to the letters of the keywords.
 */
module TextChars {

  /** The word characters of `\b`, restricted to ASCII: letters, digits and `_`. */
  predicate IsWordChar(c: char) {
    ('a' <= c <= 'z') || ('A' <= c <= 'Z') || ('0' <= c <= '9') || c == '_'
  }

  /** The characters Python's `\s` matches in a str pattern: exactly those for which `str.isspace` holds. */
  predicate IsSpace(c: char) {
    ('\t' <= c <= '\r') || ('\U{1C}' <= c <= ' ') || c == '\U{85}' || c == '\U{A0}' || c == '\U{1680}'
    || ('\U{2000}' <= c <= '\U{200A}') || c == '\U{2028}' || c == '\U{2029}' || c == '\U{202F}'
    || c == '\U{205F}' || c == '\U{3000}'
  }

  /** ASCII lower-casing: the case folding under which keywords are compared. */
  function FoldChar(c: char): (d: char)
    ensures 'A' <= c <= 'Z' ==> 'a' <= d <= 'z' && d as int - c as int == 32
    ensures !('A' <= c <= 'Z') ==> d == c
  {
    if 'A' <= c <= 'Z' then (c as int + 32) as char else c
  }

  /** ASCII upper-casing, used to state that classification ignores case. */
  function UpperChar(c: char): (d: char)
    ensures 'a' <= c <= 'z' ==> 'A' <= d <= 'Z' && c as int - d as int == 32
    ensures !('a' <= c <= 'z') ==> d == c
  {
    if 'a' <= c <= 'z' then (c as int - 32) as char else c
  }

  function Lower(s: string): (t: string)
    ensures |t| == |s| && forall i :: 0 <= i < |s| ==> t[i] == FoldChar(s[i])
  {
    seq(|s|, i requires 0 <= i < |s| => FoldChar(s[i]))
  }

  function Upper(s: string): (t: string)
    ensures |t| == |s| && forall i :: 0 <= i < |s| ==> t[i] == UpperChar(s[i])
  {
    seq(|s|, i requires 0 <= i < |s| => UpperChar(s[i]))
  }

  /** Two texts that differ only in the ASCII case of their letters. */
  predicate CaseEquivalent(a: string, b: string) {
    |a| == |b| && forall i :: 0 <= i < |a| ==> FoldChar(a[i]) == FoldChar(b[i])
  }

  /** Characters with the same folding belong to the same character classes. */
  lemma FoldKeepsClasses(c: char, d: char)
    requires FoldChar(c) == FoldChar(d)
    ensures IsWordChar(c) == IsWordChar(d)
    ensures IsSpace(c) == IsSpace(d)
  {
  }

  /** A character that folds onto a word character is not whitespace. */
  lemma FoldedWordIsNotSpace(c: char)
    requires IsWordChar(FoldChar(c))
    ensures IsWordChar(c) && !IsSpace(c)
  {
  }

  lemma LowerAndUpperAreCaseEquivalent(s: string)
    ensures CaseEquivalent(s, Lower(s))
    ensures CaseEquivalent(s, Upper(s))
  {
  }
}
