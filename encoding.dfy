/**
 The character encodings around the article file: it is written as UTF-8 and
 read back as Latin-1, with '\' as the reader's escape character.
 */
module Encoding {
  import opened Text

  /** The UTF-8 encoding of one character. */
  function Utf8(c: char): (r: seq<byte>)
    ensures 1 <= |r| <= 4
    ensures (c as int) < 128 ==> r == [(c as int) as byte]
    ensures (c as int) >= 128 ==> |r| >= 2 && forall k :: 0 <= k < |r| ==> r[k] >= 128
  {
    var n := c as int;
    if n < 0x80 then [n as byte]
    else if n < 0x800 then [(0xC0 + n / 64) as byte, (0x80 + n % 64) as byte]
    else if n < 0x1_0000 then [(0xE0 + n / 4096) as byte, (0x80 + (n / 64) % 64) as byte, (0x80 + n % 64) as byte]
    else [(0xF0 + n / 262144) as byte, (0x80 + (n / 4096) % 64) as byte, (0x80 + (n / 64) % 64) as byte,
          (0x80 + n % 64) as byte]
  }

  /** Bytes decoded as Latin-1: each byte becomes the character with the same number. */
  function Latin1(bs: seq<byte>): (r: string)
    ensures |r| == |bs|
    ensures forall k :: 0 <= k < |bs| ==> r[k] as int == bs[k] as int
  {
    if bs == [] then [] else [(bs[0] as int) as char] + Latin1(bs[1..])
  }

  /** A string written as UTF-8 and decoded as Latin-1. */
  function Transcoded(s: string): string
  {
    if s == [] then [] else Latin1(Utf8(s[0])) + Transcoded(s[1..])
  }

  /** An ASCII string without backslashes: it survives the article file unchanged. */
  predicate Plain(s: string)
  {
    '\\' !in s && forall i :: 0 <= i < |s| ==> (s[i] as int) < 128
  }

  lemma {:induction false} TranscodedConcat(a: string, b: string)
    ensures Transcoded(a + b) == Transcoded(a) + Transcoded(b)
  {
    if a == [] {
      assert a + b == b;
    } else {
      assert (a + b)[0] == a[0] && (a + b)[1..] == a[1..] + b;
      TranscodedConcat(a[1..], b);
    }
  }

  /** A pure ASCII string is transcoded unchanged. */
  lemma {:induction false} TranscodedAscii(s: string)
    requires forall i :: 0 <= i < |s| ==> (s[i] as int) < 128
    ensures Transcoded(s) == s
  {
    if s != [] {
      TranscodedAscii(s[1..]);
      assert Latin1(Utf8(s[0])) == [s[0]];
      assert s == [s[0]] + s[1..];
    }
  }

  /** Transcoding never shortens a string, and lengthens every string with a character of 128 or more. */
  lemma {:induction false} TranscodedGrows(s: string)
    ensures |Transcoded(s)| >= |s|
    ensures (exists i :: 0 <= i < |s| && (s[i] as int) >= 128) ==> |Transcoded(s)| > |s|
  {
    if s != [] {
      TranscodedGrows(s[1..]);
      if exists i :: 0 <= i < |s| && (s[i] as int) >= 128 {
        var i :| 0 <= i < |s| && (s[i] as int) >= 128;
        if i > 0 {
          assert s[1..][i - 1] == s[i];
        }
      }
    }
  }

  /** Transcoding leaves a string unchanged if and only if it is pure ASCII. */
  lemma TranscodedIdentityIffAscii(s: string)
    ensures Transcoded(s) == s <==> forall i :: 0 <= i < |s| ==> (s[i] as int) < 128
  {
    TranscodedGrows(s);
    if forall i :: 0 <= i < |s| ==> (s[i] as int) < 128 {
      TranscodedAscii(s);
    }
  }

  /** Transcoding adds no backslash: a backslash is ASCII, every byte of a longer encoding is 128 or more. */
  lemma {:induction false} TranscodedBackslashFree(s: string)
    requires '\\' !in s
    ensures '\\' !in Transcoded(s)
  {
    if s != [] {
      assert s[0] != '\\' && '\\' !in s[1..];
      TranscodedBackslashFree(s[1..]);
      var head := Latin1(Utf8(s[0]));
      assert forall k :: 0 <= k < |head| ==> head[k] != '\\';
    }
  }

  lemma {:induction false} EscapeConcat(a: string, b: string)
    ensures EscapeBackslashes(a + b) == EscapeBackslashes(a) + EscapeBackslashes(b)
  {
    if a == [] {
      assert a + b == b;
    } else {
      assert (a + b)[0] == a[0] && (a + b)[1..] == a[1..] + b;
      EscapeConcat(a[1..], b);
    }
  }

  /** Doubling backslashes and transcoding commute, because a backslash is ASCII. */
  lemma {:induction false} TranscodedEscape(t: string)
    ensures Transcoded(EscapeBackslashes(t)) == EscapeBackslashes(Transcoded(t))
  {
    if t != [] {
      var c, t' := t[0], t[1..];
      TranscodedEscape(t');
      var e: string := if c == '\\' then "\\\\" else [c];
      assert EscapeBackslashes(t) == e + EscapeBackslashes(t');
      TranscodedConcat(e, EscapeBackslashes(t'));
      assert t == [c] + t';
      TranscodedConcat([c], t');
      EscapeConcat(Transcoded([c]), Transcoded(t'));
      if c == '\\' {
        TranscodedAscii(e);
        TranscodedAscii([c]);
        assert EscapeBackslashes([c]) == e;
      } else {
        TranscodedBackslashFree([c]);
        EscapeWithoutBackslashes(Transcoded([c]));
      }
    }
  }

  /** The reader's escape scan ends on a lone backslash: it escapes the closing quote of the field. */
  predicate EndsInLoneEscape(s: string)
  {
    if s == [] then false
    else if s[0] == '\\' then |s| == 1 || EndsInLoneEscape(s[2..])
    else EndsInLoneEscape(s[1..])
  }

  /** A string with doubled backslashes never ends on a lone one. */
  lemma {:induction false} EscapedNeverLone(x: string)
    ensures !EndsInLoneEscape(EscapeBackslashes(x))
  {
    if x != [] {
      EscapedNeverLone(x[1..]);
      var rest := EscapeBackslashes(x[1..]);
      if x[0] == '\\' {
        assert EscapeBackslashes(x) == "\\\\" + rest && ("\\\\" + rest)[2..] == rest;
      } else {
        assert EscapeBackslashes(x) == [x[0]] + rest && ([x[0]] + rest)[1..] == rest;
      }
    }
  }

  /** Without backslashes the reader changes nothing and the field keeps its closing quote. */
  lemma {:induction false} BackslashFreeReadsBack(s: string)
    requires '\\' !in s
    ensures UnescapeBackslashes(s) == s && !EndsInLoneEscape(s)
  {
    if s != [] {
      assert s[0] != '\\' && '\\' !in s[1..];
      BackslashFreeReadsBack(s[1..]);
      assert s == [s[0]] + s[1..];
    }
  }

  /** Unescaping passes over a prefix without backslashes. */
  lemma {:induction false} UnescapeAfterPlain(a: string, s: string)
    requires '\\' !in a
    ensures UnescapeBackslashes(a + s) == a + UnescapeBackslashes(s)
  {
    if a == [] {
      assert a + s == s;
    } else {
      var t := a + s;
      assert t[0] == a[0] && t[0] != '\\' && t[1..] == a[1..] + s;
      assert '\\' !in a[1..];
      UnescapeAfterPlain(a[1..], s);
      calc {
        UnescapeBackslashes(t);
        [a[0]] + UnescapeBackslashes(a[1..] + s);
        [a[0]] + (a[1..] + UnescapeBackslashes(s));
        { assert a == [a[0]] + a[1..]; }
        a + UnescapeBackslashes(s);
      }
    }
  }

  /** The escape scan passes over a prefix without backslashes. */
  lemma {:induction false} LoneEscapeAfterPlain(a: string, s: string)
    requires '\\' !in a
    ensures EndsInLoneEscape(a + s) == EndsInLoneEscape(s)
  {
    if a == [] {
      assert a + s == s;
    } else {
      var t := a + s;
      assert t[0] == a[0] && t[0] != '\\' && t[1..] == a[1..] + s;
      assert '\\' !in a[1..];
      LoneEscapeAfterPlain(a[1..], s);
    }
  }

  /** Unescaping never lengthens, and shortens every framed string that has a backslash. */
  lemma {:induction false} UnescapeShortens(s: string)
    ensures |UnescapeBackslashes(s)| <= |s|
    ensures '\\' in s && !EndsInLoneEscape(s) ==> |UnescapeBackslashes(s)| < |s|
  {
    if |s| >= 2 && s[0] == '\\' {
      UnescapeShortens(s[2..]);
    } else if s != [] {
      UnescapeShortens(s[1..]);
      if s[0] != '\\' {
        assert '\\' in s ==> '\\' in s[1..];
      }
    }
  }
}
