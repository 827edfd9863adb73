/**
 The indexer's row loop as its error handling evidently intends it: a row
 too short to have the target-category column is skipped, not fatal.
 */
module SkippingIndexer {
  import opened Results
  import opened Text
  import opened Graph
  import opened Indexer

  /** The complete rows of rows, in order. */
  function CompleteRows(rows: seq<seq<string>>): seq<seq<string>>
  {
    if rows == [] then []
    else
      var last := rows[|rows| - 1];
      CompleteRows(rows[..|rows| - 1]) + (if Complete(last) then [last] else [])
  }

  /** The corrected pass reads exactly the complete rows. */
  lemma {:induction false} CompleteRowsMembers(rows: seq<seq<string>>, row: seq<string>)
    ensures row in CompleteRows(rows) <==> row in rows && Complete(row)
  {
    if rows != [] {
      var init := rows[..|rows| - 1];
      CompleteRowsMembers(init, row);
      assert rows == init + [rows[|rows| - 1]];
    }
  }

  lemma CompleteRowsStep(rows: seq<seq<string>>, i: nat)
    requires i < |rows|
    ensures CompleteRows(rows[..i + 1]) == CompleteRows(rows[..i]) + (if Complete(rows[i]) then [rows[i]] else [])
  {
    assert rows[..i + 1][..i] == rows[..i];
  }

  /** A short row is skipped: the corrected pass over rows and the one over rows without it agree. */
  lemma ShortRowSkipped(rows: seq<seq<string>>, row: seq<string>)
    requires !Complete(row)
    ensures CompleteRows(rows + [row]) == CompleteRows(rows)
  {
    assert (rows + [row])[..|rows|] == rows;
  }

  /** The corrected row loop: a row without the target-category column is skipped and the pass goes on. */
  method ExtractIndexSkipping(rows: seq<seq<string>>) returns (ix: Index)
    ensures IndexOf(CompleteRows(rows), ix)
  {
    var adj: Adjacency := map[];
    var articles: seq<seq<string>> := [];
    var i := 0;
    while i < |rows|
      invariant 0 <= i <= |rows|
      invariant IndexOf(CompleteRows(rows[..i]), Index(adj, articles))
    {
      var line := rows[i];
      ghost var pre := CompleteRows(rows[..i]);
      CompleteRowsStep(rows, i);
      if |line| > TargetField {
        ghost var adj0, articles0 := adj, articles;
        var cat := Normalize(line[TargetField]);
        if line[NamespaceField] == CategoryNamespace {
          var subcat := Normalize(line[TitleField]);
          adj := AppendSubcategory(adj, cat, subcat);
        }
        if line[NamespaceField] == ArticleNamespace {
          articles := articles + [[line[IdField], EscapeBackslashes(line[TitleField]), cat]];
        }
        IndexStep(pre, line, adj0, articles0, adj, articles);
        assert CompleteRows(rows[..i + 1]) == pre + [line];
      } else {
        assert CompleteRows(rows[..i + 1]) == pre;
      }
      i := i + 1;
    }
    assert rows[..i] == rows;
    ix := Index(adj, articles);
  }

  /**
   An article row followed by a short row: every outcome the row loop as
   written allows is a failure at the short row, after the article row was
   written out, while the corrected pass indexes the article row and skips
   the short one.
   */
  lemma ShortRowAbortsPass(article: seq<string>, short: seq<string>, res: Result<Index, IndexError>)
    requires IsArticleRow(article) && !Complete(short)
    requires var rows := [article, short];
             && (res.Failure? <==> exists i :: 0 <= i < |rows| && !Complete(rows[i]))
             && (res.Failure? ==>
                   && res.error.at < |rows|
                   && !Complete(rows[res.error.at])
                   && (forall j :: 0 <= j < res.error.at ==> Complete(rows[j]))
                   && res.error.written == ArticleLines(rows[..res.error.at]))
    ensures res == Failure(ShortRow(1, [ArticleLine(article)]))
    ensures CompleteRows([article, short]) == [article]
    ensures ArticleLines(CompleteRows([article, short])) == [ArticleLine(article)]
  {
    var rows := [article, short];
    var first := [article];
    assert Complete(rows[0]) && !Complete(rows[1]);
    assert rows[..1] == first && first[..0] == [] && rows[..|rows| - 1] == first;
    assert ArticleLines(first) == [ArticleLine(article)];
    assert CompleteRows(first) == [article];
  }
}
