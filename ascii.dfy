/**
 * ASCII character classes and the two ways the Go code matches a regular
 * expression made of one character class: `[c]` found anywhere in the string,
 * and `^[c]+$` covering the whole string.
 *
 * A Go string is a sequence of bytes; here each byte is one `char`. Every class
 * below is ASCII, and Go's regexp decodes bytes >= 0x80 to runes outside ASCII,
 * so testing the bytes one by one gives the same answer as Go's rune-wise match.
 */
module Ascii {

  predicate IsUpper(c: char) { 'A' <= c <= 'Z' }
  predicate IsLower(c: char) { 'a' <= c <= 'z' }
  predicate IsDigit(c: char) { '0' <= c <= '9' }
  predicate IsAlphanumeric(c: char) { IsUpper(c) || IsLower(c) || IsDigit(c) }

  /** `regexp.MatchString` of a one-class pattern such as `[A-Z]`: some byte is in the class. */
  function ContainsAny(s: string, inClass: char -> bool): (r: bool)
    ensures r <==> exists i :: 0 <= i < |s| && inClass(s[i])
  {
    if s == [] then false
    else if inClass(s[0]) then true
    else
      var rest := ContainsAny(s[1..], inClass);
      assert forall i :: 0 < i < |s| ==> s[i] == s[1..][i - 1];
      rest
  }

  /** `regexp.MatchString` of `^[class]+$`: the string is non-empty and every byte is in the class. */
  function MatchesOnly(s: string, inClass: char -> bool): (r: bool)
    ensures r <==> |s| > 0 && forall i :: 0 <= i < |s| ==> inClass(s[i])
  {
    |s| > 0 && AllIn(s, inClass)
  }

  function AllIn(s: string, inClass: char -> bool): (r: bool)
    ensures r <==> forall i :: 0 <= i < |s| ==> inClass(s[i])
  {
    if s == [] then true
    else
      var rest := AllIn(s[1..], inClass);
      assert forall i :: 0 < i < |s| ==> s[i] == s[1..][i - 1];
      inClass(s[0]) && rest
  }
}
