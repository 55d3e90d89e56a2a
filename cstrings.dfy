/**
 * The two C library string services the engine relies on: `toupper`
 * in the "C" locale (ASCII letters only) and `strcmp`.
 */
module CStrings {
  import opened CrosswordTypes

  /** ASCII upper-casing of one character; everything but 'a'..'z' is kept. */
  function ToUpper(c: char): (u: char)
    ensures 'a' <= c <= 'z' ==> 'A' <= u <= 'Z' && u as int == c as int - 32
    ensures !('a' <= c <= 'z') ==> u == c
  {
    if 'a' <= c <= 'z' then (c as int - 32) as char else c
  }

  /** A string upper-cased character by character. */
  function Upper(s: string): (u: string)
    ensures |u| == |s|
  {
    seq(|s|, i requires 0 <= i < |s| => ToUpper(s[i]))
  }

  /** No lower-case ASCII letter occurs in `s`. */
  predicate IsUpper(s: string) {
    forall i :: 0 <= i < |s| ==> !('a' <= s[i] <= 'z')
  }

  /** Upper-casing keeps the length and yields a string without lower-case letters. */
  lemma UpperShape(s: string)
    ensures |Upper(s)| == |s|
    ensures IsUpper(Upper(s))
    ensures forall i :: 0 <= i < |s| ==> Upper(s)[i] == ToUpper(s[i])
  {
  }

  /** Upper-casing twice is upper-casing once. */
  lemma UpperIdempotent(s: string)
    ensures Upper(Upper(s)) == Upper(s)
  {
    UpperShape(s);
    UpperShape(Upper(s));
  }

  /** A string with no lower-case letter is its own upper-casing. */
  lemma UpperOfUpper(s: string)
    requires IsUpper(s)
    ensures Upper(s) == s
  {
  }

  /** Upper-casing keeps a C string a C string. */
  lemma UpperKeepsNoNul(s: string)
    requires IsCString(s)
    ensures IsCString(Upper(s))
  {
  }

  /**
   * The in-place upper-casing loop over a copied buffer: every character is
   * replaced by its upper-case form, left to right.
   */
  method UpperCase(s: string) returns (u: string)
    ensures u == Upper(s)
  {
    u := s;
    var i := 0;
    while i < |u|
      invariant 0 <= i <= |u| == |s|
      invariant forall k :: 0 <= k < i ==> u[k] == ToUpper(s[k])
      invariant forall k :: i <= k < |u| ==> u[k] == s[k]
    {
      u := u[i := ToUpper(u[i])];
      i := i + 1;
    }
  }

  /**
   * `strcmp`: the sign of the first difference of the two strings, where a
   * string that ends first (at its terminator) is the smaller.
   * Characters are compared by code; -1, 0 and 1 stand for negative, zero
   * and positive.
   */
  function StrCmp(a: string, b: string): (r: int)
    ensures r == 0 <==> a == b
    ensures r == -1 || r == 0 || r == 1
  {
    if a == [] && b == [] then 0
    else if a == [] then -1
    else if b == [] then 1
    else if a[0] < b[0] then -1
    else if b[0] < a[0] then 1
    else
      var r := StrCmp(a[1..], b[1..]);
      assert a == [a[0]] + a[1..] && b == [b[0]] + b[1..];
      r
  }
}
