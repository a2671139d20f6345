/**
  ASCII string helpers: Python's `str.strip`, `str.strip(chars)` and `str.upper`
  restricted to ASCII characters.
 */
module Strings {

  /** The ASCII characters Python's `str.isspace` accepts. */
  predicate IsSpace(c: char) {
    c == ' ' || 9 <= c as int <= 13 || 28 <= c as int <= 31
  }

  /** The characters stripped from both ends of a units cell. */
  predicate IsBracket(c: char) {
    c == '(' || c == ')' || c == '[' || c == ']'
  }

  predicate IsLower(c: char) {
    'a' <= c <= 'z'
  }

  predicate IsDigit(c: char) {
    '0' <= c <= '9'
  }

  predicate AllDigits(s: string) {
    forall i :: 0 <= i < |s| ==> IsDigit(s[i])
  }

  predicate NoLower(s: string) {
    forall i :: 0 <= i < |s| ==> !IsLower(s[i])
  }

  function UpperChar(c: char): (u: char)
    ensures !IsLower(u)
    ensures !IsLower(c) ==> u == c
    ensures IsLower(c) ==> u as int + 32 == c as int
  {
    if IsLower(c) then (c as int - 32) as char else c
  }

  /** `str.upper` on ASCII: every lower-case letter is replaced by its capital. */
  function Upper(s: string): (r: string)
    ensures |r| == |s|
    ensures NoLower(r)
    ensures forall i :: 0 <= i < |s| ==> r[i] == UpperChar(s[i])
  {
    seq(|s|, i requires 0 <= i < |s| => UpperChar(s[i]))
  }

  /** Strips the longest prefix of characters satisfying `drop`. */
  function StripLeft(s: string, drop: char -> bool): (r: string)
    ensures |r| <= |s|
    ensures r == s[|s| - |r|..]
    ensures forall i :: 0 <= i < |s| - |r| ==> drop(s[i])
    ensures |r| == 0 || !drop(r[0])
  {
    if |s| > 0 && drop(s[0]) then
      var r := StripLeft(s[1..], drop);
      assert forall i :: 1 <= i < |s| ==> s[1..][i - 1] == s[i];
      r
    else s
  }

  /** Strips the longest suffix of characters satisfying `drop`. */
  function StripRight(s: string, drop: char -> bool): (r: string)
    ensures |r| <= |s|
    ensures r == s[..|r|]
    ensures forall i :: |r| <= i < |s| ==> drop(s[i])
    ensures |r| == 0 || !drop(r[|r| - 1])
  {
    if |s| > 0 && drop(s[|s| - 1]) then
      var r := StripRight(s[..|s| - 1], drop);
      assert forall i :: 0 <= i < |s| - 1 ==> s[..|s| - 1][i] == s[i];
      r
    else s
  }

  /**
    `str.strip` with a character class: the result is the infix of `s` left
    once every leading and trailing character in the class is removed.
   */
  function Strip(s: string, drop: char -> bool): (r: string)
    ensures |r| == 0 || (!drop(r[0]) && !drop(r[|r| - 1]))
    ensures var a := |s| - |StripLeft(s, drop)|;
      && a + |r| <= |s|
      && r == s[a..a + |r|]
      && (forall i :: 0 <= i < a ==> drop(s[i]))
      && (forall i :: a + |r| <= i < |s| ==> drop(s[i]))
  {
    StripRight(StripLeft(s, drop), drop)
  }

  /** A string already free of droppable ends is left alone by `Strip`. */
  lemma StripIdentity(s: string, drop: char -> bool)
    requires |s| == 0 || (!drop(s[0]) && !drop(s[|s| - 1]))
    ensures Strip(s, drop) == s
  {
  }

  lemma UpperIdempotent(s: string)
    ensures Upper(Upper(s)) == Upper(s)
  {
  }
}
