/**
 What the explorer's promises mean for the category graph: when every listed
 subcategory is a key, the recorded depth of a category is its distance
 from the seed, and exactly the categories within the bound are recorded.
 */
module ShortestPaths {
  import opened Graph
  import opened Depths
  import Indexer

  /** Every recorded category is reached from the seed by a path as long as its depth. */
  lemma {:induction false} DepthHasPath(adj: Adjacency, seed: string, maxDepth: int, r: map<string, int>, c: string)
    returns (path: seq<string>)
    requires ExplorePost(adj, seed, maxDepth, r) && c in r
    ensures PathFrom(adj, seed, path) && path[|path| - 1] == c && |path| - 1 == r[c]
    decreases r[c]
  {
    if c == seed {
      path := [seed];
    } else {
      var p :| p in r && Edge(adj, p, c) && r[p] == r[c] - 1;
      var pre := DepthHasPath(adj, seed, maxDepth, r, p);
      path := pre + [c];
      forall i | 0 <= i < |path| - 1 ensures Edge(adj, path[i], path[i + 1]) {
        if i < |pre| - 1 {
          assert path[i] == pre[i] && path[i + 1] == pre[i + 1];
        }
      }
    }
  }

  /** With a closed adjacency map, every category within the bound of the seed is recorded, no deeper than its path. */
  lemma {:induction false} PathsAreNoShorter(adj: Adjacency, seed: string, maxDepth: int, r: map<string, int>,
                                             path: seq<string>)
    requires Closed(adj) && seed in adj && ExplorePost(adj, seed, maxDepth, r)
    requires PathFrom(adj, seed, path) && |path| - 1 <= Bound(maxDepth)
    ensures path[|path| - 1] in r && r[path[|path| - 1]] <= |path| - 1
    decreases |path|
  {
    if |path| > 1 {
      var pre := path[..|path| - 1];
      assert PathFrom(adj, seed, pre) by {
        forall i | 0 <= i < |pre| - 1 ensures Edge(adj, pre[i], pre[i + 1]) {
          assert pre[i] == path[i] && pre[i + 1] == path[i + 1];
        }
      }
      PathsAreNoShorter(adj, seed, maxDepth, r, pre);
      var p, s := path[|path| - 2], path[|path| - 1];
      assert Edge(adj, p, s);
      assert pre[|pre| - 1] == p;
    }
  }

  /**
   With a closed adjacency map and a known seed, a category is recorded iff
   some path of at most the bound reaches it, and its depth is the length of
   a shortest such path.
   */
  lemma DepthsAreDistances(adj: Adjacency, seed: string, maxDepth: int, r: map<string, int>)
    requires Closed(adj) && seed in adj && ExplorePost(adj, seed, maxDepth, r)
    ensures forall c :: c in r ==>
              exists path :: PathFrom(adj, seed, path) && path[|path| - 1] == c && |path| - 1 == r[c]
    ensures forall path :: PathFrom(adj, seed, path) && |path| - 1 <= Bound(maxDepth) ==>
              path[|path| - 1] in r && r[path[|path| - 1]] <= |path| - 1
  {
    forall c | c in r
      ensures exists path :: PathFrom(adj, seed, path) && path[|path| - 1] == c && |path| - 1 == r[c]
    {
      var path := DepthHasPath(adj, seed, maxDepth, r, c);
    }
    forall path | PathFrom(adj, seed, path) && |path| - 1 <= Bound(maxDepth)
      ensures path[|path| - 1] in r && r[path[|path| - 1]] <= |path| - 1
    {
      PathsAreNoShorter(adj, seed, maxDepth, r, path);
    }
  }

  /**
   On the adjacency map the indexer builds, no recorded category is ever
   dropped for want of an adjacency entry, and the depths are distances.
   */
  lemma IndexedDepthsAreDistances(rows: seq<seq<string>>, ix: Indexer.Index, seed: string, maxDepth: int,
                                  r: map<string, int>)
    requires Indexer.IndexOf(rows, ix) && seed in ix.adj && ExplorePost(ix.adj, seed, maxDepth, r)
    ensures forall c :: c in r ==> c in ix.adj
    ensures forall c :: c in r ==>
              exists path :: PathFrom(ix.adj, seed, path) && path[|path| - 1] == c && |path| - 1 == r[c]
    ensures forall path :: PathFrom(ix.adj, seed, path) && |path| - 1 <= Bound(maxDepth) ==>
              path[|path| - 1] in r && r[path[|path| - 1]] <= |path| - 1
  {
    Indexer.IndexIsClosed(rows, ix);
    DepthsAreDistances(ix.adj, seed, maxDepth, r);
  }

  /** The chain A, B, C, D explored from A with bound 2 records A, B and C at depths 0, 1 and 2. */
  lemma ChainExample(r: map<string, int>)
    requires ExplorePost(map["A" := ["B"], "B" := ["C"], "C" := ["D"], "D" := []], "A", 2, r)
    ensures r == map["A" := 0, "B" := 1, "C" := 2]
  {
    var adj: Adjacency := map["A" := ["B"], "B" := ["C"], "C" := ["D"], "D" := []];
    assert Edge(adj, "A", "B") && Edge(adj, "B", "C");
    assert forall p, c :: Edge(adj, p, c) ==> (p == "A" && c == "B") || (p == "B" && c == "C") || (p == "C" && c == "D");
    assert r["B"] == 1;
    assert r["C"] == 2;
    assert "D" !in r;
    assert r.Keys == {"A", "B", "C"};
  }
}
