/**
 The article collector and what sits around it: the adjacency map cut down
 to the explored categories, the per-category article id lists, and the
 union of those lists that the content extraction filters by.
 */
module Collector {
  import opened Graph
  import opened Buckets
  import Depths

  /** The adjacency map restricted to the explored categories. */
  method Subgraph(adj: Adjacency, depth: map<string, int>) returns (links: Adjacency)
    ensures links.Keys == depth.Keys * adj.Keys
    ensures forall c :: c in links ==> links[c] == adj[c]
  {
    links := map[];
    var remaining := depth.Keys;
    while remaining != {}
      invariant remaining <= depth.Keys
      invariant links.Keys == (depth.Keys - remaining) * adj.Keys
      invariant forall c :: c in links ==> c in adj && links[c] == adj[c]
      decreases |remaining|
    {
      var c :| c in remaining;
      if c in adj {
        links := links[c := adj[c]];
      }
      remaining := remaining - {c};
    }
  }

  /**
   On a closed adjacency map the restriction keeps every explored category,
   and the lists of those explored below the bound name only explored ones.
   */
  lemma SubgraphOfExplored(adj: Adjacency, seed: string, maxDepth: int, r: map<string, int>, links: Adjacency)
    requires Closed(adj) && Depths.ExplorePost(adj, seed, maxDepth, r)
    requires links.Keys == r.Keys * adj.Keys && forall c :: c in links ==> links[c] == adj[c]
    ensures links.Keys == r.Keys
    ensures forall c, s :: c in links && r[c] < maxDepth && s in links[c] ==> s in r
  {
    forall c | c in r ensures c in adj {
      if c != seed {
        var p :| p in r && Edge(adj, p, c) && r[p] == r[c] - 1;
      }
    }
    forall c, s | c in links && r[c] < maxDepth && s in links[c] ensures s in r {
      assert Edge(adj, c, s) && s in adj;
    }
  }

  /** Column positions in an article row: id, title, category. */
  const IdColumn := 0
  const CategoryColumn := 2

  /** A row the collector can read; the others are skipped. */
  predicate Readable(row: seq<string>)
  {
    |row| > CategoryColumn
  }

  /** The ids of the readable rows assigned to category c, in row order, duplicates kept. */
  function IdsUnder(rows: seq<seq<string>>, c: string): seq<string>
  {
    if rows == [] then []
    else
      var last := rows[|rows| - 1];
      IdsUnder(rows[..|rows| - 1], c)
        + (if Readable(last) && last[CategoryColumn] == c then [last[IdColumn]] else [])
  }

  /** The number of readable rows assigned to one of the categories ks. */
  function Hits(rows: seq<seq<string>>, ks: set<string>): nat
  {
    if rows == [] then 0
    else
      var last := rows[|rows| - 1];
      Hits(rows[..|rows| - 1], ks) + (if Readable(last) && last[CategoryColumn] in ks then 1 else 0)
  }

  /** A row too short to be read leaves every list and the count as they were. */
  lemma UnreadableRowSkipped(rows: seq<seq<string>>, row: seq<string>, ks: set<string>)
    requires !Readable(row)
    ensures forall c :: IdsUnder(rows + [row], c) == IdsUnder(rows, c)
    ensures Hits(rows + [row], ks) == Hits(rows, ks)
  {
    assert (rows + [row])[..|rows|] == rows;
  }

  /** The lists and the count after the collector has read rows. */
  ghost predicate CollectedFrom(rows: seq<seq<string>>, ks: set<string>, ids: Buckets, count: nat)
  {
    && (forall c :: c in ids <==> c in ks && IdsUnder(rows, c) != [])
    && (forall c :: c in ids ==> ids[c] == IdsUnder(rows, c))
    && count == Hits(rows, ks)
    && count == Total(ids)
  }

  /** One more row: its id is appended under its category when that was explored. */
  lemma CollectStep(rows: seq<seq<string>>, row: seq<string>, ks: set<string>,
                    ids: Buckets, count: nat, ids': Buckets, count': nat)
    requires CollectedFrom(rows, ks, ids, count)
    requires if Readable(row) && row[CategoryColumn] in ks
             then
               var c := row[CategoryColumn];
               ids' == ids[c := (if c in ids then ids[c] else []) + [row[IdColumn]]] && count' == count + 1
             else ids' == ids && count' == count
    ensures CollectedFrom(rows + [row], ks, ids', count')
  {
    var rows' := rows + [row];
    assert rows'[..|rows|] == rows;
    if Readable(row) && row[CategoryColumn] in ks {
      var d, x := row[CategoryColumn], row[IdColumn];
      TotalAppend(ids, d, x);
      forall c
        ensures (c in ids' <==> c in ks && IdsUnder(rows', c) != []) && (c in ids' ==> ids'[c] == IdsUnder(rows', c))
      {
        if c == d {
          assert IdsUnder(rows', c) == IdsUnder(rows, c) + [x];
        } else {
          assert IdsUnder(rows', c) == IdsUnder(rows, c);
        }
      }
      assert Hits(rows', ks) == Hits(rows, ks) + 1;
    } else {
      forall c | c in ks
        ensures IdsUnder(rows', c) == IdsUnder(rows, c)
      {
      }
      assert Hits(rows', ks) == Hits(rows, ks);
    }
  }

  /**
   The collector: appends each readable row's id under its category when the
   category was explored; the count is the number of ids appended.
   */
  method CollectArticleIds(rows: seq<seq<string>>, depth: map<string, int>)
    returns (ids: Buckets, count: nat)
    ensures forall c :: c in ids <==> c in depth && IdsUnder(rows, c) != []
    ensures forall c :: c in ids ==> ids[c] == IdsUnder(rows, c)
    ensures count == Hits(rows, depth.Keys)
    ensures count == Total(ids)
  {
    ids, count := map[], 0;
    var i := 0;
    while i < |rows|
      invariant 0 <= i <= |rows|
      invariant CollectedFrom(rows[..i], depth.Keys, ids, count)
    {
      var line := rows[i];
      ghost var ids0, count0 := ids, count;
      if |line| > CategoryColumn {
        var pageId, category := line[IdColumn], line[CategoryColumn];
        if category in depth {
          ids := ids[category := (if category in ids then ids[category] else []) + [pageId]];
          count := count + 1;
        }
      }
      CollectStep(rows[..i], line, depth.Keys, ids0, count0, ids, count);
      assert rows[..i] + [line] == rows[..i + 1];
      i := i + 1;
    }
    assert rows[..i] == rows;
  }

  /** Every id the collector gathers stems from a readable row assigned to an explored category. */
  lemma {:induction false} IdsUnderFromRows(rows: seq<seq<string>>, c: string, x: string)
    requires x in IdsUnder(rows, c)
    ensures exists i :: 0 <= i < |rows| && Readable(rows[i]) && rows[i][CategoryColumn] == c && rows[i][IdColumn] == x
  {
    var init := rows[..|rows| - 1];
    if x in IdsUnder(init, c) {
      IdsUnderFromRows(init, c, x);
      var i :| 0 <= i < |init| && Readable(init[i]) && init[i][CategoryColumn] == c && init[i][IdColumn] == x;
      assert rows[i] == init[i];
    } else {
      assert rows[|rows| - 1][IdColumn] == x;
    }
  }

  /** Every readable row has its id collected under its category. */
  lemma {:induction false} RowIdCollected(rows: seq<seq<string>>, i: nat)
    requires i < |rows| && Readable(rows[i])
    ensures rows[i][IdColumn] in IdsUnder(rows, rows[i][CategoryColumn])
  {
    var init := rows[..|rows| - 1];
    if i < |rows| - 1 {
      assert init[i] == rows[i];
      RowIdCollected(init, i);
    }
  }

  /** An id is listed under c if and only if some readable row assigns it to c. */
  lemma IdsUnderExactly(rows: seq<seq<string>>, c: string, x: string)
    ensures x in IdsUnder(rows, c) <==>
              exists i :: 0 <= i < |rows| && Readable(rows[i]) && rows[i][CategoryColumn] == c && rows[i][IdColumn] == x
  {
    if x in IdsUnder(rows, c) {
      IdsUnderFromRows(rows, c, x);
    }
    if exists i :: 0 <= i < |rows| && Readable(rows[i]) && rows[i][CategoryColumn] == c && rows[i][IdColumn] == x {
      var i :| 0 <= i < |rows| && Readable(rows[i]) && rows[i][CategoryColumn] == c && rows[i][IdColumn] == x;
      RowIdCollected(rows, i);
    }
  }

  /** Taking in the list of one more category. */
  lemma UnionStep(m: Buckets, seen: set<string>, c: string, ids: set<string>, pairs: nat)
    requires c in m && c !in seen
    requires ids == IdsOver(m, seen) && pairs == SumOver(m, seen)
    ensures ids + Elems(m[c]) == IdsOver(m, seen + {c})
    ensures pairs + |m[c]| == SumOver(m, seen + {c})
  {
    SumOverPick(m, seen + {c}, c);
    assert seen + {c} - {c} == seen;
  }

  /** The state of the union loop: the categories seen so far are taken in, the remaining ones are not. */
  ghost predicate UnionSoFar(m: Buckets, seen: set<string>, remaining: set<string>, ids: set<string>, pairs: nat)
  {
    seen + remaining == m.Keys && seen !! remaining && ids == IdsOver(m, seen) && pairs == SumOver(m, seen)
  }

  /** Taking in one remaining category moves it from the remaining ones to the seen ones. */
  lemma UnionLoopStep(m: Buckets, seen: set<string>, remaining: set<string>, c: string,
                      ids0: set<string>, pairs0: nat, ids: set<string>, pairs: nat)
    requires UnionSoFar(m, seen, remaining, ids0, pairs0) && c in remaining
    requires ids == ids0 + Elems(m[c]) && pairs == pairs0 + |m[c]|
    ensures UnionSoFar(m, seen + {c}, remaining - {c}, ids, pairs)
    ensures |remaining - {c}| < |remaining|
  {
    UnionStep(m, seen, c, ids0, pairs0);
  }

  /** Adds the ids of one list to a set, counting them. */
  method AddAll(list: seq<string>, ids: set<string>, pairs: nat) returns (ids': set<string>, pairs': nat)
    ensures ids' == ids + Elems(list)
    ensures pairs' == pairs + |list|
  {
    ids', pairs' := ids, pairs;
    var i := 0;
    while i < |list|
      invariant 0 <= i <= |list|
      invariant ids' == ids + Elems(list[..i])
      invariant pairs' == pairs + i
    {
      assert list[..i + 1] == list[..i] + [list[i]];
      pairs' := pairs' + 1;
      ids' := ids' + {list[i]};
      i := i + 1;
    }
    assert list[..i] == list;
  }

  /** The union of all id lists (the target-id set) and the number of (category, id) pairs. */
  method TargetIds(buckets: Buckets) returns (ids: set<string>, pairs: nat)
    ensures ids == AllIds(buckets)
    ensures pairs == Total(buckets)
    ensures |ids| <= pairs
  {
    ids, pairs := {}, 0;
    var remaining := buckets.Keys;
    ghost var seen: set<string> := {};
    while remaining != {}
      invariant UnionSoFar(buckets, seen, remaining, ids, pairs)
      decreases |remaining|
    {
      var c :| c in remaining;
      ghost var ids0, pairs0 := ids, pairs;
      ids, pairs := AddAll(buckets[c], ids, pairs);
      UnionLoopStep(buckets, seen, remaining, c, ids0, pairs0, ids, pairs);
      remaining := remaining - {c};
      seen := seen + {c};
    }
    assert seen == buckets.Keys;
    IdsOverBound(buckets, seen);
  }
}
