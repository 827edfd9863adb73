/**
 The link-table indexer: one pass over the rows of the link export that builds
 the category-to-subcategories adjacency map and the article rows
 (id, escaped title, category) written to the article file.
 */
module Indexer {
  import opened Results
  import opened Text
  import opened Graph

  /** Column positions in a row of the link export. */
  const IdField := 0
  const NamespaceField := 1
  const TitleField := 2
  const TargetField := 15

  /** Namespace codes of category pages and of ordinary articles. */
  const CategoryNamespace := "14"
  const ArticleNamespace := "0"

  /** A row that has the target-category column; every other row aborts the pass. */
  predicate Complete(row: seq<string>)
  {
    |row| > TargetField
  }

  /** The normalised category the row links into. */
  function Target(row: seq<string>): string
    requires Complete(row)
  {
    Normalize(row[TargetField])
  }

  /** The normalised title of the row's page. */
  function Subcategory(row: seq<string>): string
    requires Complete(row)
  {
    Normalize(row[TitleField])
  }

  predicate IsCategoryRow(row: seq<string>)
  {
    Complete(row) && row[NamespaceField] == CategoryNamespace
  }

  predicate IsArticleRow(row: seq<string>)
  {
    Complete(row) && row[NamespaceField] == ArticleNamespace
  }

  /** The article row written for an article: id, title with '\' doubled, target category. */
  function ArticleLine(row: seq<string>): seq<string>
    requires Complete(row)
  {
    [row[IdField], EscapeBackslashes(row[TitleField]), Target(row)]
  }

  /** The subcategories that the category rows of rows list under c, in row order, duplicates kept. */
  function Children(rows: seq<seq<string>>, c: string): seq<string>
  {
    if rows == [] then []
    else
      var last := rows[|rows| - 1];
      Children(rows[..|rows| - 1], c)
        + (if IsCategoryRow(last) && Target(last) == c then [Subcategory(last)] else [])
  }

  /** Every name that a category row mentions, as parent or as subcategory. */
  function Mentioned(rows: seq<seq<string>>): set<string>
  {
    if rows == [] then {}
    else
      var last := rows[|rows| - 1];
      Mentioned(rows[..|rows| - 1])
        + (if IsCategoryRow(last) then {Target(last), Subcategory(last)} else {})
  }

  /** The article rows written for the article rows of rows, in row order. */
  function ArticleLines(rows: seq<seq<string>>): seq<seq<string>>
  {
    if rows == [] then []
    else
      var last := rows[|rows| - 1];
      ArticleLines(rows[..|rows| - 1]) + (if IsArticleRow(last) then [ArticleLine(last)] else [])
  }

  datatype Index = Index(adj: Adjacency, articles: seq<seq<string>>)

  /**
   The pass failed at row at, too short to have the target-category column;
   written holds the article rows already written out before it.
   */
  datatype IndexError = ShortRow(at: nat, written: seq<seq<string>>)

  /** ix is what the pass produces from rows. */
  ghost predicate IndexOf(rows: seq<seq<string>>, ix: Index)
  {
    && ix.adj.Keys == Mentioned(rows)
    && (forall c :: c in ix.adj ==> ix.adj[c] == Children(rows, c))
    && ix.articles == ArticleLines(rows)
  }

  lemma {:induction false} UnmentionedHasNoChildren(rows: seq<seq<string>>, c: string)
    requires c !in Mentioned(rows)
    ensures Children(rows, c) == []
  {
    if rows != [] {
      UnmentionedHasNoChildren(rows[..|rows| - 1], c);
    }
  }

  lemma {:induction false} ChildrenAreMentioned(rows: seq<seq<string>>, c: string, s: string)
    requires s in Children(rows, c)
    ensures s in Mentioned(rows) && c in Mentioned(rows)
  {
    if rows != [] {
      var init := rows[..|rows| - 1];
      if s in Children(init, c) {
        ChildrenAreMentioned(init, c, s);
      }
    }
  }

  /** Every subcategory the index lists is itself a key of the adjacency map. */
  lemma IndexIsClosed(rows: seq<seq<string>>, ix: Index)
    requires IndexOf(rows, ix)
    ensures Closed(ix.adj)
  {
    forall p, s | p in ix.adj && s in ix.adj[p] ensures s in ix.adj {
      ChildrenAreMentioned(rows, p, s);
    }
  }

  /** A category row appends its normalised title under its normalised target and makes that title a key. */
  lemma CategoryRowStep(rows: seq<seq<string>>, row: seq<string>)
    requires IsCategoryRow(row)
    ensures Children(rows + [row], Target(row)) == Children(rows, Target(row)) + [Subcategory(row)]
    ensures forall c :: c != Target(row) ==> Children(rows + [row], c) == Children(rows, c)
    ensures Mentioned(rows + [row]) == Mentioned(rows) + {Target(row), Subcategory(row)}
    ensures ArticleLines(rows + [row]) == ArticleLines(rows)
  {
    assert (rows + [row])[..|rows|] == rows;
  }

  /** An article row adds one article line and leaves the adjacency alone. */
  lemma ArticleRowStep(rows: seq<seq<string>>, row: seq<string>)
    requires IsArticleRow(row)
    ensures ArticleLines(rows + [row]) == ArticleLines(rows) + [[row[0], EscapeBackslashes(row[2]), Normalize(row[15])]]
    ensures forall c :: Children(rows + [row], c) == Children(rows, c)
    ensures Mentioned(rows + [row]) == Mentioned(rows)
  {
    assert (rows + [row])[..|rows|] == rows;
  }

  /** A complete row of any other namespace changes nothing. */
  lemma OtherRowStep(rows: seq<seq<string>>, row: seq<string>)
    requires Complete(row) && row[1] != "14" && row[1] != "0"
    ensures ArticleLines(rows + [row]) == ArticleLines(rows)
    ensures forall c :: Children(rows + [row], c) == Children(rows, c)
    ensures Mentioned(rows + [row]) == Mentioned(rows)
  {
    assert (rows + [row])[..|rows|] == rows;
  }

  /**
   Appends subcat to the list of cat, creating the list when cat is new, and
   then makes sure subcat has a list of its own.
   */
  function AppendSubcategory(adj: Adjacency, cat: string, subcat: string): (r: Adjacency)
    ensures r.Keys == adj.Keys + {cat, subcat}
    ensures r[cat] == (if cat in adj then adj[cat] else []) + [subcat]
    ensures subcat != cat ==> r[subcat] == (if subcat in adj then adj[subcat] else [])
    ensures forall c :: c in adj && c != cat ==> r[c] == adj[c]
  {
    var added := adj[cat := (if cat in adj then adj[cat] else []) + [subcat]];
    if subcat in added then added else added[subcat := []]
  }

  /** The adjacency map after one more complete row. */
  function AddRow(adj: Adjacency, row: seq<string>): Adjacency
    requires Complete(row)
  {
    if IsCategoryRow(row) then AppendSubcategory(adj, Target(row), Subcategory(row)) else adj
  }

  /** One more complete row keeps the adjacency map and the article rows in step with the rows read. */
  lemma IndexStep(rows: seq<seq<string>>, row: seq<string>, adj: Adjacency, articles: seq<seq<string>>,
                  adj': Adjacency, articles': seq<seq<string>>)
    requires Complete(row) && IndexOf(rows, Index(adj, articles))
    requires adj' == AddRow(adj, row)
    requires articles' == articles + (if IsArticleRow(row) then [ArticleLine(row)] else [])
    ensures IndexOf(rows + [row], Index(adj', articles'))
  {
    assert (rows + [row])[..|rows|] == rows;
    if IsCategoryRow(row) {
      if Target(row) !in adj {
        UnmentionedHasNoChildren(rows, Target(row));
      }
      if Subcategory(row) !in adj {
        UnmentionedHasNoChildren(rows, Subcategory(row));
      }
    }
  }

  /**
   The row loop of the indexer. The first row without the target-category
   column raises an error that nothing catches, so the whole pass fails.
   */
  method ExtractIndex(rows: seq<seq<string>>) returns (res: Result<Index, IndexError>)
    ensures res.Failure? <==> exists i :: 0 <= i < |rows| && !Complete(rows[i])
    ensures res.Failure? ==>
              && res.error.at < |rows|
              && !Complete(rows[res.error.at])
              && (forall j :: 0 <= j < res.error.at ==> Complete(rows[j]))
              && res.error.written == ArticleLines(rows[..res.error.at])
    ensures res.Success? ==> IndexOf(rows, res.value)
  {
    var adj: Adjacency := map[];
    var articles: seq<seq<string>> := [];
    var i := 0;
    while i < |rows|
      invariant 0 <= i <= |rows|
      invariant forall j :: 0 <= j < i ==> Complete(rows[j])
      invariant IndexOf(rows[..i], Index(adj, articles))
    {
      var line := rows[i];
      if |line| <= TargetField {
        assert articles == ArticleLines(rows[..i]);
        return Failure(ShortRow(i, articles));
      }
      ghost var adj0, articles0 := adj, articles;
      var cat := Normalize(line[TargetField]);
      if line[NamespaceField] == CategoryNamespace {
        var subcat := Normalize(line[TitleField]);
        adj := AppendSubcategory(adj, cat, subcat);
      }
      if line[NamespaceField] == ArticleNamespace {
        articles := articles + [[line[IdField], EscapeBackslashes(line[TitleField]), cat]];
      }
      IndexStep(rows[..i], line, adj0, articles0, adj, articles);
      assert rows[..i] + [line] == rows[..i + 1];
      i := i + 1;
    }
    assert rows[..i] == rows;
    return Success(Index(adj, articles));
  }
}
