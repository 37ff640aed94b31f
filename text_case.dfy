/** Lower-casing of text as Python's `str.lower` does it, restricted to the
    letters whose case mapping stays inside Latin-1 (ASCII A-Z and the
    accented capitals U+00C0-U+00DE other than the multiplication sign). */
module TextCase {

  /** Upper-case letters of ASCII and Latin-1. */
  predicate IsUpper(c: char) {
    ('A' <= c <= 'Z') || ('\U{C0}' <= c <= '\U{DE}' && c != '\U{D7}')
  }

  /** Lower-case letters of ASCII and Latin-1 that have an upper-case partner
      in Latin-1 (so not U+00DF sharp s, U+00F7 division sign or U+00FF). */
  predicate IsLower(c: char) {
    ('a' <= c <= 'z') || ('\U{E0}' <= c <= '\U{FE}' && c != '\U{F7}')
  }

  /** The lower-case form of one character; every other character is kept. */
  function LowerChar(c: char): (r: char)
    ensures IsUpper(c) ==> IsLower(r) && r as int == c as int + 32
    ensures !IsUpper(c) ==> r == c
  {
    if IsUpper(c) then (c as int + 32) as char else c
  }

  /** The upper-case partner of a lower-case letter. */
  function UpperChar(c: char): (r: char)
    requires IsLower(c)
    ensures IsUpper(r) && LowerChar(r) == c
  {
    (c as int - 32) as char
  }

  /** `s.lower()`: the text with each character lower-cased in place. */
  function Lower(s: string): (r: string)
    ensures |r| == |s|
    ensures forall k :: 0 <= k < |s| ==> r[k] == LowerChar(s[k])
  {
    if s == [] then [] else [LowerChar(s[0])] + Lower(s[1..])
  }

  /** A character lower-cases to a lower-case letter exactly when it is that
      letter or its upper-case partner. */
  lemma LowerCharTo(c: char, d: char)
    requires IsLower(d)
    ensures LowerChar(c) == d <==> c == d || c == UpperChar(d)
  {
    if IsUpper(c) && LowerChar(c) == d {
      assert c as int == d as int - 32;
    }
  }

  /** Lower-casing twice is lower-casing once. */
  lemma LowerIdempotent(s: string)
    ensures Lower(Lower(s)) == Lower(s)
  {
    var t := Lower(s);
    forall k | 0 <= k < |t|
      ensures Lower(t)[k] == t[k]
    {
      assert !IsUpper(t[k]);
    }
  }

  /** Which texts lower-case to a given all-lower-case word: those of the
      same length whose every character is the word's letter in either case. */
  lemma LowerMatches(s: string, w: string)
    requires forall k :: 0 <= k < |w| ==> IsLower(w[k])
    ensures Lower(s) == w <==>
      |s| == |w| && forall k :: 0 <= k < |s| ==> s[k] == w[k] || s[k] == UpperChar(w[k])
  {
    if |s| == |w| {
      forall k | 0 <= k < |s|
        ensures Lower(s)[k] == w[k] <==> s[k] == w[k] || s[k] == UpperChar(w[k])
      {
        LowerCharTo(s[k], w[k]);
      }
      if forall k :: 0 <= k < |s| ==> s[k] == w[k] || s[k] == UpperChar(w[k]) {
        assert Lower(s) == w;
      }
    }
  }
}
