/**
 The hand-over between the indexer and the collector. The indexer writes its
 article rows as UTF-8 with only the title's backslashes doubled; the
 collector decodes the file as Latin-1 and takes '\' as its escape character.
 What the collector reads back is therefore each written field transcoded and
 unescaped, which is the field itself only for plain ASCII names.
 */
module Pipeline {
  import opened Text
  import opened Encoding
  import opened Indexer
  import opened Collector

  /** The ids of the article rows of the link export that link into category c, in row order. */
  function ArticlesIn(rows: seq<seq<string>>, c: string): seq<string>
  {
    if rows == [] then []
    else
      var last := rows[|rows| - 1];
      ArticlesIn(rows[..|rows| - 1], c)
        + (if IsArticleRow(last) && Target(last) == c then [last[IdField]] else [])
  }

  /** The number of article rows of the link export that link into one of the categories ks. */
  function ArticleHits(rows: seq<seq<string>>, ks: set<string>): nat
  {
    if rows == [] then 0
    else
      var last := rows[|rows| - 1];
      ArticleHits(rows[..|rows| - 1], ks) + (if IsArticleRow(last) && Target(last) in ks then 1 else 0)
  }

  /** A written field as the collector receives it: transcoded from UTF-8 to Latin-1, then unescaped. */
  function ReadField(f: string): string
  {
    UnescapeBackslashes(Transcoded(f))
  }

  /** The reader does not take the field's closing quote for an escaped one, so the row keeps its shape. */
  predicate Framed(f: string)
  {
    !EndsInLoneEscape(Transcoded(f))
  }

  /** A written row as read back, field by field. */
  function ReadRow(line: seq<string>, read: string -> string): (r: seq<string>)
    ensures |r| == |line|
  {
    seq(|line|, i requires 0 <= i < |line| => read(line[i]))
  }

  /** The written rows as read back, one row per line. */
  function ReadBack(lines: seq<seq<string>>, read: string -> string): seq<seq<string>>
  {
    if lines == [] then []
    else ReadBack(lines[..|lines| - 1], read) + [ReadRow(lines[|lines| - 1], read)]
  }

  /** The ids, as read back, of the article rows whose category reads back as c. */
  function ArticlesReadUnder(rows: seq<seq<string>>, c: string): seq<string>
  {
    if rows == [] then []
    else
      var last := rows[|rows| - 1];
      ArticlesReadUnder(rows[..|rows| - 1], c)
        + (if IsArticleRow(last) && ReadField(Target(last)) == c then [ReadField(last[IdField])] else [])
  }

  /** The number of article rows whose category reads back as one of ks. */
  function ArticleReadHits(rows: seq<seq<string>>, ks: set<string>): nat
  {
    if rows == [] then 0
    else
      var last := rows[|rows| - 1];
      ArticleReadHits(rows[..|rows| - 1], ks) + (if IsArticleRow(last) && ReadField(Target(last)) in ks then 1 else 0)
  }

  /** Reading back one more line appends that line read back. */
  lemma ReadBackAppend(lines: seq<seq<string>>, line: seq<string>, read: string -> string)
    ensures ReadBack(lines + [line], read) == ReadBack(lines, read) + [ReadRow(line, read)]
  {
    assert (lines + [line])[..|lines|] == lines;
  }

  /** Collecting one more row appends its id under its category, and counts it when that is one of ks. */
  lemma CollectAppend(back: seq<seq<string>>, r: seq<string>, c: string, ks: set<string>)
    requires Readable(r)
    ensures IdsUnder(back + [r], c) == IdsUnder(back, c) + (if r[CategoryColumn] == c then [r[IdColumn]] else [])
    ensures Hits(back + [r], ks) == Hits(back, ks) + (if r[CategoryColumn] in ks then 1 else 0)
  {
    assert (back + [r])[..|back|] == back;
  }

  /** Every article row reads back as a row of three fields. */
  lemma {:induction false} ReadBackReadable(rows: seq<seq<string>>, read: string -> string)
    ensures forall r :: r in ReadBack(ArticleLines(rows), read) ==> Readable(r)
  {
    if rows != [] {
      var init, last := rows[..|rows| - 1], rows[|rows| - 1];
      ReadBackReadable(init, read);
      var a := ArticleLines(init);
      if IsArticleRow(last) {
        assert ArticleLines(rows) == a + [ArticleLine(last)];
        ReadBackAppend(a, ArticleLine(last), read);
      } else {
        assert ArticleLines(rows) == a;
      }
    }
  }

  /**
   When no written field loses its closing quote, the collector reads every
   article row, and collects under c the read-back ids of the article rows
   whose category reads back as c.
   */
  lemma {:induction false} ReadBackCollects(rows: seq<seq<string>>, c: string, ks: set<string>)
    requires forall line, f :: line in ArticleLines(rows) && f in line ==> Framed(f)
    ensures forall r :: r in ReadBack(ArticleLines(rows), ReadField) ==> Readable(r)
    ensures IdsUnder(ReadBack(ArticleLines(rows), ReadField), c) == ArticlesReadUnder(rows, c)
    ensures Hits(ReadBack(ArticleLines(rows), ReadField), ks) == ArticleReadHits(rows, ks)
  {
    ReadBackReadable(rows, ReadField);
    ReadBackCollected(rows, c, ks);
  }

  lemma {:induction false} ReadBackCollected(rows: seq<seq<string>>, c: string, ks: set<string>)
    ensures IdsUnder(ReadBack(ArticleLines(rows), ReadField), c) == ArticlesReadUnder(rows, c)
    ensures Hits(ReadBack(ArticleLines(rows), ReadField), ks) == ArticleReadHits(rows, ks)
  {
    if rows != [] {
      var init, last := rows[..|rows| - 1], rows[|rows| - 1];
      ReadBackCollected(init, c, ks);
      var a := ArticleLines(init);
      if IsArticleRow(last) {
        var line := ArticleLine(last);
        assert ArticleLines(rows) == a + [line];
        ReadBackAppend(a, line, ReadField);
        var r := ReadRow(line, ReadField);
        assert r[IdColumn] == ReadField(last[IdField]) && r[CategoryColumn] == ReadField(Target(last));
        CollectAppend(ReadBack(a, ReadField), r, c, ks);
      } else {
        assert ArticleLines(rows) == a;
      }
    }
  }

  /** A plain name reads back as itself and keeps its closing quote. */
  lemma PlainReadsBack(s: string)
    requires Plain(s)
    ensures ReadField(s) == s && Framed(s)
  {
    TranscodedAscii(s);
    BackslashFreeReadsBack(s);
  }

  /** The written title, with its backslashes doubled, keeps its closing quote and reads back as the title transcoded. */
  lemma WrittenTitleReadsBack(t: string)
    ensures ReadField(EscapeBackslashes(t)) == Transcoded(t)
    ensures Framed(EscapeBackslashes(t))
  {
    TranscodedEscape(t);
    EscapeRoundTrip(Transcoded(t));
    EscapedNeverLone(Transcoded(t));
  }

  /**
   With plain ids and categories, the hand-over is exact: every written field
   keeps its closing quote, and the collector collects under c the ids of the
   article rows linking into c and counts the article rows linking into ks.
   */
  lemma {:induction false} PlainArticlesCollected(rows: seq<seq<string>>, c: string, ks: set<string>)
    requires forall k :: 0 <= k < |rows| && IsArticleRow(rows[k]) ==> Plain(rows[k][IdField]) && Plain(Target(rows[k]))
    ensures forall line, f :: line in ArticleLines(rows) && f in line ==> Framed(f)
    ensures IdsUnder(ReadBack(ArticleLines(rows), ReadField), c) == ArticlesIn(rows, c)
    ensures Hits(ReadBack(ArticleLines(rows), ReadField), ks) == ArticleHits(rows, ks)
  {
    PlainReadUnder(rows, c, ks);
    ReadBackCollects(rows, c, ks);
  }

  /** With plain ids and categories, reading back changes neither the collected ids nor the count, and frames every field. */
  lemma {:induction false} PlainReadUnder(rows: seq<seq<string>>, c: string, ks: set<string>)
    requires forall k :: 0 <= k < |rows| && IsArticleRow(rows[k]) ==> Plain(rows[k][IdField]) && Plain(Target(rows[k]))
    ensures forall line, f :: line in ArticleLines(rows) && f in line ==> Framed(f)
    ensures ArticlesReadUnder(rows, c) == ArticlesIn(rows, c)
    ensures ArticleReadHits(rows, ks) == ArticleHits(rows, ks)
  {
    if rows != [] {
      var init, last := rows[..|rows| - 1], rows[|rows| - 1];
      assert forall k :: 0 <= k < |init| ==> init[k] == rows[k];
      PlainReadUnder(init, c, ks);
      var a := ArticleLines(init);
      if IsArticleRow(last) {
        assert Plain(last[IdField]) && Plain(Target(last));
        PlainReadsBack(last[IdField]);
        PlainReadsBack(Target(last));
        WrittenTitleReadsBack(last[TitleField]);
        var line := ArticleLine(last);
        assert ArticleLines(rows) == a + [line];
        forall l, f | l in a + [line] && f in l
          ensures Framed(f)
        {
          if l !in a {
            assert l == line;
          }
        }
      } else {
        assert ArticleLines(rows) == a;
      }
    }
  }

  /** Reading back, field by field with read, the row written for a single article row. */
  lemma SingleArticleReadBack(row: seq<string>, c: string, read: string -> string)
    requires IsArticleRow(row)
    ensures ArticlesIn([row], c) == (if Target(row) == c then [row[IdField]] else [])
    ensures IdsUnder(ReadBack(ArticleLines([row]), read), c)
         == (if read(Target(row)) == c then [read(row[IdField])] else [])
  {
    var none: seq<seq<string>> := [];
    assert [row] == none + [row];
    assert ArticlesIn(none + [row], c) == ArticlesIn(none, c) + (if Target(row) == c then [row[IdField]] else []) by {
      assert (none + [row])[..0] == none;
    }
    var line := ArticleLine(row);
    assert ArticleLines(none + [row]) == none + [line] by {
      assert (none + [row])[..0] == none;
    }
    ReadBackAppend(none, line, read);
    var r := ReadRow(line, read);
    assert r[IdColumn] == read(row[IdField]) && r[CategoryColumn] == read(Target(row));
    CollectAppend(ReadBack(none, read), r, c, {});
  }

  /**
   As written, an article whose category has a character outside ASCII (and no
   backslash) is not collected under that category: the category comes back
   from the Latin-1 reading longer than it was written.
   */
  lemma NonAsciiCategoryLost(row: seq<string>)
    requires IsArticleRow(row) && '\\' !in Target(row)
    requires exists i :: 0 <= i < |Target(row)| && (Target(row)[i] as int) >= 128
    ensures ArticlesIn([row], Target(row)) == [row[IdField]]
    ensures IdsUnder(ReadBack(ArticleLines([row]), ReadField), Target(row)) == []
  {
    var t := Target(row);
    TranscodedGrows(t);
    TranscodedBackslashFree(t);
    BackslashFreeReadsBack(Transcoded(t));
    SingleArticleReadBack(row, t, ReadField);
  }

  /**
   As written, an article whose ASCII category has a backslash is not
   collected under that category: the category is never escaped, and the
   reader drops its backslashes.
   */
  lemma BackslashCategoryLost(row: seq<string>)
    requires IsArticleRow(row) && '\\' in Target(row) && Framed(Target(row))
    requires forall i :: 0 <= i < |Target(row)| ==> (Target(row)[i] as int) < 128
    ensures ArticlesIn([row], Target(row)) == [row[IdField]]
    ensures IdsUnder(ReadBack(ArticleLines([row]), ReadField), Target(row)) == []
  {
    var t := Target(row);
    TranscodedAscii(t);
    UnescapeShortens(t);
    SingleArticleReadBack(row, t, ReadField);
  }

  /**
   As written, a backslash inside a plain category is dropped by the reader,
   and a category ending in a backslash escapes its own closing quote.
   */
  lemma BackslashDropped(a: string, b: string)
    requires Plain(a) && Plain(b) && b != []
    ensures ReadField(a + ['\\'] + b) == a + b
    ensures !Framed(a + ['\\'])
  {
    var s := a + ['\\'] + b;
    assert forall i :: 0 <= i < |s| ==> (s[i] as int) < 128 by {
      forall i | 0 <= i < |s| ensures (s[i] as int) < 128 {
        if i > |a| {
          assert s[i] == b[i - |a| - 1];
        }
      }
    }
    TranscodedAscii(s);
    TranscodedAscii(a + ['\\']);
    assert s == a + (['\\'] + b);
    UnescapeAfterPlain(a, ['\\'] + b);
    LoneEscapeAfterPlain(a, ['\\']);
    assert b[0] != '\\' && '\\' !in b[1..];
    BackslashFreeReadsBack(b[1..]);
    assert (['\\'] + b)[2..] == b[1..];
    assert b == [b[0]] + b[1..];
  }

  /** The corrected article row: every field has its backslashes doubled. */
  function FixedLine(row: seq<string>): seq<string>
    requires Complete(row)
  {
    [EscapeBackslashes(row[IdField]), EscapeBackslashes(row[TitleField]), EscapeBackslashes(Target(row))]
  }

  /** The corrected article rows written for the article rows of rows, in row order. */
  function FixedLines(rows: seq<seq<string>>): seq<seq<string>>
  {
    if rows == [] then []
    else
      var last := rows[|rows| - 1];
      FixedLines(rows[..|rows| - 1]) + (if IsArticleRow(last) then [FixedLine(last)] else [])
  }

  /**
   With every field escaped and the file read in the encoding it was written
   in, the hand-over is exact for every name: every field keeps its closing
   quote, every row is read, and the collector collects under c the ids of
   the article rows linking into c and counts the article rows linking into ks.
   */
  lemma {:induction false} CorrectedRoundTrip(rows: seq<seq<string>>, c: string, ks: set<string>)
    ensures forall line, f :: line in FixedLines(rows) && f in line ==> !EndsInLoneEscape(f)
    ensures forall r :: r in ReadBack(FixedLines(rows), UnescapeBackslashes) ==> Readable(r)
    ensures IdsUnder(ReadBack(FixedLines(rows), UnescapeBackslashes), c) == ArticlesIn(rows, c)
    ensures Hits(ReadBack(FixedLines(rows), UnescapeBackslashes), ks) == ArticleHits(rows, ks)
  {
    FixedLinesFramed(rows);
    FixedLinesCollected(rows, c, ks);
  }

  /** No corrected field ends on a lone backslash, and every corrected row reads back as three fields. */
  lemma {:induction false} FixedLinesFramed(rows: seq<seq<string>>)
    ensures forall line, f :: line in FixedLines(rows) && f in line ==> !EndsInLoneEscape(f)
    ensures forall r :: r in ReadBack(FixedLines(rows), UnescapeBackslashes) ==> Readable(r)
  {
    if rows != [] {
      var init, last := rows[..|rows| - 1], rows[|rows| - 1];
      FixedLinesFramed(init);
      var a := FixedLines(init);
      if IsArticleRow(last) {
        var line := FixedLine(last);
        assert FixedLines(rows) == a + [line];
        ReadBackAppend(a, line, UnescapeBackslashes);
        EscapedNeverLone(last[IdField]);
        EscapedNeverLone(last[TitleField]);
        EscapedNeverLone(Target(last));
        forall l, f | l in a + [line] && f in l
          ensures !EndsInLoneEscape(f)
        {
          if l !in a {
            assert l == line;
          }
        }
      } else {
        assert FixedLines(rows) == a;
      }
    }
  }

  /** The corrected rows read back give the ids of the article rows linking into c, and the count of those linking into ks. */
  lemma {:induction false} FixedLinesCollected(rows: seq<seq<string>>, c: string, ks: set<string>)
    ensures IdsUnder(ReadBack(FixedLines(rows), UnescapeBackslashes), c) == ArticlesIn(rows, c)
    ensures Hits(ReadBack(FixedLines(rows), UnescapeBackslashes), ks) == ArticleHits(rows, ks)
  {
    if rows != [] {
      var init, last := rows[..|rows| - 1], rows[|rows| - 1];
      FixedLinesCollected(init, c, ks);
      var a := FixedLines(init);
      if IsArticleRow(last) {
        var line := FixedLine(last);
        assert FixedLines(rows) == a + [line];
        ReadBackAppend(a, line, UnescapeBackslashes);
        EscapeRoundTrip(last[IdField]);
        EscapeRoundTrip(Target(last));
        var r := ReadRow(line, UnescapeBackslashes);
        assert r[IdColumn] == last[IdField] && r[CategoryColumn] == Target(last);
        CollectAppend(ReadBack(a, UnescapeBackslashes), r, c, ks);
      } else {
        assert FixedLines(rows) == a;
      }
    }
  }
}
