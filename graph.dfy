/** The category graph: each category name maps to its ordered list of subcategory names. */
module Graph {

  type Adjacency = map<string, seq<string>>

  /** b is listed as a subcategory of the key a. */
  predicate Edge(adj: Adjacency, a: string, b: string)
  {
    a in adj && b in adj[a]
  }

  /** Every listed subcategory is itself a key. */
  ghost predicate Closed(adj: Adjacency)
  {
    forall p, s :: p in adj && s in adj[p] ==> s in adj
  }

  /** A walk along subcategory edges starting at seed; |path| - 1 edges long. */
  ghost predicate PathFrom(adj: Adjacency, seed: string, path: seq<string>)
  {
    && |path| > 0
    && path[0] == seed
    && forall i :: 0 <= i < |path| - 1 ==> Edge(adj, path[i], path[i + 1])
  }
}
