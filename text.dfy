/** Character classes and case folding, restricted to ASCII. */
module Text {

  type String = seq<char>

  predicate IsUpper(c: char) {
    'A' <= c <= 'Z'
  }

  /** The regular-expression class \w, approximated by [A-Za-z0-9_]. */
  predicate IsWordChar(c: char) {
    ('a' <= c <= 'z') || ('A' <= c <= 'Z') || ('0' <= c <= '9') || c == '_'
  }

  /** A string with no upper-case letter. */
  predicate IsLowerCase(s: String) {
    forall i :: 0 <= i < |s| ==> !IsUpper(s[i])
  }

  const UpperLetters: String := "ABCDEFGHIJKLMNOPQRSTUVWXYZ"
  const LowerLetters: String := "abcdefghijklmnopqrstuvwxyz"

  function LowerChar(c: char): char {
    if IsUpper(c) then (c as int + 32) as char else c
  }

  /** str.lower() on the ASCII letters. */
  function Lower(s: String): (r: String)
    ensures |r| == |s|
    ensures IsLowerCase(r)
    ensures forall i :: 0 <= i < |s| ==> IsWordChar(r[i]) == IsWordChar(s[i])
    ensures forall i :: 0 <= i < |s| ==> !IsUpper(s[i]) ==> r[i] == s[i]
    ensures forall i, j :: 0 <= i < |s| && 0 <= j < 26 && s[i] == UpperLetters[j] ==>
      r[i] == LowerLetters[j]
  {
    seq(|s|, i requires 0 <= i < |s| => LowerChar(s[i]))
  }

  /** Lower-casing is idempotent, and the lower-case strings are exactly its fixed points. */
  lemma LowerFixedPoints(s: String)
    ensures Lower(Lower(s)) == Lower(s)
    ensures IsLowerCase(s) <==> Lower(s) == s
  {
    if !IsLowerCase(s) {
      var i :| 0 <= i < |s| && IsUpper(s[i]);
      assert Lower(s)[i] != s[i];
    }
  }
}
