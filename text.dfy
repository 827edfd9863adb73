/**
 String transformations applied to titles, category names and article text:
 the title normalisation, the backslash doubling done when article rows are
 written out, and the final ASCII-only encoding step of the text cleaner.
 */
module Text {

  /** One byte of an encoded text. */
  newtype byte = x: int | 0 <= x < 256

  /** Replaces every '_' by ' ' and leaves every other character alone. */
  function Normalize(s: string): (r: string)
    ensures |r| == |s|
    ensures forall i :: 0 <= i < |s| ==> r[i] == (if s[i] == '_' then ' ' else s[i])
  {
    if s == [] then [] else [if s[0] == '_' then ' ' else s[0]] + Normalize(s[1..])
  }

  /** A normalised name contains no underscore, so normalising again changes nothing. */
  lemma NormalizeIdempotent(s: string)
    ensures '_' !in Normalize(s)
    ensures Normalize(Normalize(s)) == Normalize(s)
  {
    var n := Normalize(s);
    assert forall i :: 0 <= i < |n| ==> n[i] != '_';
  }

  /** Normalisation is the identity exactly on strings without underscores. */
  lemma NormalizeFixpoints(s: string)
    ensures Normalize(s) == s <==> '_' !in s
  {
    if '_' in s {
      var i :| 0 <= i < |s| && s[i] == '_';
      assert Normalize(s)[i] == ' ';
    }
  }

  /** Number of occurrences of c in s. */
  function Occurrences(s: string, c: char): nat
  {
    if s == [] then 0 else (if s[0] == c then 1 else 0) + Occurrences(s[1..], c)
  }

  /** Doubles every backslash (the article-row title written by the indexer). */
  function EscapeBackslashes(s: string): (r: string)
    ensures |r| == |s| + Occurrences(s, '\\')
  {
    if s == [] then [] else (if s[0] == '\\' then "\\\\" else [s[0]]) + EscapeBackslashes(s[1..])
  }

  /** A string without backslashes is written unchanged. */
  lemma {:induction false} EscapeWithoutBackslashes(s: string)
    requires '\\' !in s
    ensures EscapeBackslashes(s) == s
  {
    if s != [] {
      assert s == [s[0]] + s[1..];
      EscapeWithoutBackslashes(s[1..]);
    }
  }

  /**
   Reads a string written with '\' as escape character: a backslash makes the
   next character literal; a trailing lone backslash is kept.
   */
  function UnescapeBackslashes(s: string): string
  {
    if |s| >= 2 && s[0] == '\\' then [s[1]] + UnescapeBackslashes(s[2..])
    else if s == [] then []
    else [s[0]] + UnescapeBackslashes(s[1..])
  }

  /** Reading the doubled title back with '\' as escape character gives the title. */
  lemma {:induction false} EscapeRoundTrip(s: string)
    ensures UnescapeBackslashes(EscapeBackslashes(s)) == s
  {
    if s != [] {
      var rest := EscapeBackslashes(s[1..]);
      EscapeRoundTrip(s[1..]);
      if s[0] == '\\' {
        assert EscapeBackslashes(s) == "\\\\" + rest;
        assert ("\\\\" + rest)[2..] == rest;
      } else {
        assert EscapeBackslashes(s) == [s[0]] + rest;
        assert ([s[0]] + rest)[1..] == rest;
      }
    }
  }

  /** The byte of an ASCII character. */
  function AsciiByte(c: char): byte
    requires (c as int) < 128
  {
    (c as int) as byte
  }

  /** Encoding to ASCII with errors ignored: keeps the characters below 128 as bytes. */
  function AsciiOnly(s: string): (r: seq<byte>)
    ensures |r| <= |s|
    ensures forall i :: 0 <= i < |r| ==> r[i] < 128
  {
    if s == [] then []
    else (if (s[0] as int) < 128 then [AsciiByte(s[0])] else []) + AsciiOnly(s[1..])
  }

  /** The encoding works character by character: it distributes over concatenation. */
  lemma {:induction false} AsciiOnlyConcat(a: string, b: string)
    ensures AsciiOnly(a + b) == AsciiOnly(a) + AsciiOnly(b)
  {
    if a == [] {
      assert a + b == b;
    } else {
      assert (a + b)[0] == a[0];
      assert (a + b)[1..] == a[1..] + b;
      AsciiOnlyConcat(a[1..], b);
    }
  }

  /** A pure ASCII text is encoded byte for byte, in order. */
  lemma {:induction false} AsciiOnlyKeepsAscii(s: string)
    requires forall i :: 0 <= i < |s| ==> (s[i] as int) < 128
    ensures |AsciiOnly(s)| == |s|
    ensures forall i :: 0 <= i < |s| ==> AsciiOnly(s)[i] as int == s[i] as int
  {
    if s != [] {
      AsciiOnlyKeepsAscii(s[1..]);
    }
  }

  /** A text without any ASCII character encodes to nothing. */
  lemma {:induction false} AsciiOnlyDropsOthers(s: string)
    requires forall i :: 0 <= i < |s| ==> (s[i] as int) >= 128
    ensures AsciiOnly(s) == []
  {
    if s != [] {
      AsciiOnlyDropsOthers(s[1..]);
    }
  }
}
