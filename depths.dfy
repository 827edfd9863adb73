/**
 The category depth explorer: a search from a seed category over the
 adjacency map whose frontier is a priority queue of (depth, name) pairs,
 bounded by a maximum depth, producing a category-to-depth map.
 */
module Depths {
  import opened Graph
  import opened Order

  /** A pending category of the frontier. */
  datatype Entry = Entry(depth: int, name: string)

  /** The order in which the frontier hands entries out: by depth, then by name. */
  predicate Precedes(a: Entry, b: Entry)
  {
    a.depth < b.depth || (a.depth == b.depth && StrLess(a.name, b.name))
  }

  lemma PrecedesIrreflexive(a: Entry)
    ensures !Precedes(a, a)
  {
    StrLessIrreflexive(a.name);
  }

  lemma PrecedesTransitive(a: Entry, b: Entry, c: Entry)
    requires Precedes(a, b) && Precedes(b, c)
    ensures Precedes(a, c)
  {
    if a.depth == b.depth == c.depth {
      StrLessTransitive(a.name, b.name, c.name);
    }
  }

  lemma PrecedesTotal(a: Entry, b: Entry)
    requires a != b
    ensures Precedes(a, b) || Precedes(b, a)
  {
    if a.depth == b.depth {
      StrLessTotal(a.name, b.name);
    }
  }

  ghost predicate Distinct<T>(s: seq<T>)
  {
    forall i, j :: 0 <= i < j < |s| ==> s[i] != s[j]
  }

  /** The position of the least entry: the one a priority-queue get hands out. */
  function MinIndex(q: seq<Entry>): (k: nat)
    requires |q| > 0
    ensures k < |q|
    ensures forall j :: 0 <= j < |q| ==> !Precedes(q[j], q[k])
  {
    if |q| == 1 then
      PrecedesIrreflexive(q[0]); 0
    else
      var k := MinIndex(q[1..]) + 1;
      if Precedes(q[0], q[k]) then
        MinBeforeRest(q, k); 0
      else
        k
  }

  lemma MinBeforeRest(q: seq<Entry>, k: nat)
    requires 0 < k < |q| && Precedes(q[0], q[k])
    requires forall j :: 1 <= j < |q| ==> !Precedes(q[j], q[k])
    ensures forall j :: 0 <= j < |q| ==> !Precedes(q[j], q[0])
  {
    PrecedesIrreflexive(q[0]);
    forall j | 1 <= j < |q| ensures !Precedes(q[j], q[0]) {
      if Precedes(q[j], q[0]) {
        PrecedesTransitive(q[j], q[0], q[k]);
      }
    }
  }

  /** The queue without its k-th entry. */
  function RemoveAt(q: seq<Entry>, k: nat): (r: seq<Entry>)
    requires k < |q|
    ensures |r| == |q| - 1
    ensures Distinct(q) ==> Distinct(r) && forall x :: x in r <==> x in q && x != q[k]
  {
    var r := q[..k] + q[k + 1..];
    assert forall i :: 0 <= i < |r| ==> r[i] == q[if i < k then i else i + 1];
    r
  }

  /**
   newDepth, newQueue and newParent are depth, queue and parent after
   category p, handed out at depth d, has had its subcategories subs expanded.
   */
  ghost predicate ExpansionOf(subs: seq<string>, p: string, d: int, depth: map<string, int>,
                              queue: seq<Entry>, parent: map<string, string>,
                              newDepth: map<string, int>, newQueue: seq<Entry>, newParent: map<string, string>)
  {
    // recorded depths are kept, and every subcategory ends up recorded
    && (forall c :: c in depth ==> c in newDepth && newDepth[c] == depth[c])
    && (forall s :: s in subs ==> s in newDepth)
    // the new ones are subcategories of p at depth d + 1, discovered by p
    && (forall c :: c in newDepth && c !in depth ==>
          c in subs && newDepth[c] == d + 1 && c in newParent && newParent[c] == p)
    && (forall c :: c in depth && c in parent ==> c in newParent && newParent[c] == parent[c])
    // and exactly the new ones join the frontier, once each
    && Distinct(newQueue)
    && (forall e :: e in newQueue <==> e in queue || (e.name in newDepth && e.name !in depth && e.depth == d + 1))
    && (forall e :: e in newQueue ==> e.name in newDepth)
  }

  /**
   Expansion of category p, popped at depth d: each listed subcategory that
   has no depth yet gets depth d + 1 and is put on the frontier, with p
   recorded (ghost) as the parent that discovered it.
   */
  method ExpandChildren(subs: seq<string>, p: string, d: int, depth: map<string, int>,
                        queue: seq<Entry>, ghost parent: map<string, string>)
    returns (newDepth: map<string, int>, newQueue: seq<Entry>, ghost newParent: map<string, string>)
    requires Distinct(queue)
    requires forall e :: e in queue ==> e.name in depth
    ensures ExpansionOf(subs, p, d, depth, queue, parent, newDepth, newQueue, newParent)
  {
    newDepth, newQueue, newParent := depth, queue, parent;
    var i := 0;
    while i < |subs|
      invariant 0 <= i <= |subs|
      invariant forall c :: c in depth ==> c in newDepth && newDepth[c] == depth[c]
      invariant forall j :: 0 <= j < i ==> subs[j] in newDepth
      invariant forall c :: c in newDepth && c !in depth ==>
                  c in subs && newDepth[c] == d + 1 && c in newParent && newParent[c] == p
      invariant forall c :: c in depth && c in parent ==> c in newParent && newParent[c] == parent[c]
      invariant Distinct(newQueue)
      invariant forall e :: e in newQueue <==> e in queue || (e.name in newDepth && e.name !in depth && e.depth == d + 1)
      invariant forall e :: e in newQueue ==> e.name in newDepth
    {
      var s := subs[i];
      if s !in newDepth {
        newDepth := newDepth[s := d + 1];
        newQueue := newQueue + [Entry(d + 1, s)];
        newParent := newParent[s := p];
      }
      i := i + 1;
    }
  }

  /** The largest depth the explorer can record: the bound, or 0 when the bound is not positive. */
  function Bound(maxDepth: int): nat
  {
    if maxDepth > 0 then maxDepth else 0
  }

  /** Every recorded category but the seed was discovered from a recorded key one level shallower. */
  ghost predicate ParentWitnessed(adj: Adjacency, seed: string, r: map<string, int>)
  {
    forall c :: c in r && c != seed ==> exists p :: p in r && Edge(adj, p, c) && r[p] == r[c] - 1
  }

  /** What the explorer promises about its result r, whatever the adjacency map. */
  ghost predicate ExplorePost(adj: Adjacency, seed: string, maxDepth: int, r: map<string, int>)
  {
    // an unknown seed gives the empty map
    && (seed !in adj ==> r == map[])
    // otherwise the seed is recorded at depth 0
    && (seed in adj ==> seed in r && r[seed] == 0)
    // no depth exceeds the (non-negative) bound
    && (forall c :: c in r ==> 0 <= r[c] <= Bound(maxDepth))
    && ParentWitnessed(adj, seed, r)
    // a category recorded below the bound but without adjacency entry has been dropped
    && (forall c :: c in r && r[c] < maxDepth ==> c in adj)
    // the subcategories of a category recorded below the bound are recorded at most one level deeper
    && (forall p, s :: p in r && r[p] < maxDepth && Edge(adj, p, s) && s in adj ==> s in r && r[s] <= r[p] + 1)
  }

  lemma RemoveOneKey(keys: set<string>, done: set<string>, p: string)
    requires p in keys && p !in done
    ensures |keys - (done + {p})| < |keys - done|
  {
    assert keys - done == (keys - (done + {p})) + {p};
  }

  /** The frontier: one entry per pending category, consistent with depth, handed out in increasing order. */
  ghost predicate FrontierInv(depth: map<string, int>, queue: seq<Entry>, done: set<string>, cur: int, popped: seq<Entry>)
  {
    && Distinct(queue)
    && (forall e :: e in queue ==>
          e.name in depth && depth[e.name] == e.depth && e.name !in done && cur <= e.depth)
    && (popped == [] ==> cur == 0)
    && (popped != [] ==>
          cur == popped[|popped| - 1].depth && forall e :: e in queue ==> Precedes(popped[|popped| - 1], e))
    && (forall i :: 0 < i < |popped| ==> Precedes(popped[i - 1], popped[i]))
  }

  /** The recorded depths: the seed at 0, all within the bound, each but the seed with its discoverer one level up. */
  ghost predicate DepthInv(adj: Adjacency, seed: string, maxDepth: int, depth: map<string, int>, cur: int,
                           parent: map<string, string>)
  {
    && seed in adj
    && seed in depth && depth[seed] == 0
    && (forall c :: c in depth ==> 0 <= depth[c] <= Bound(maxDepth) && depth[c] <= cur + 1)
    && (forall c :: c in depth && c != seed ==>
          c in parent && parent[c] in depth && Edge(adj, parent[c], c) && depth[parent[c]] == depth[c] - 1)
  }

  /** The expanded keys: each once, below the bound, with its subcategory keys recorded; the rest is pending. */
  ghost predicate DoneInv(adj: Adjacency, maxDepth: int, depth: map<string, int>, queue: seq<Entry>,
                          done: set<string>, cur: int, expanded: seq<string>)
  {
    && done <= adj.Keys && done <= depth.Keys
    && (forall c :: c in done ==> depth[c] < maxDepth && depth[c] <= cur)
    && (forall p, s :: p in done && Edge(adj, p, s) && s in adj ==> s in depth && depth[s] <= depth[p] + 1)
    && (forall c :: c in depth && c !in done ==> Entry(depth[c], c) in queue)
    && Distinct(expanded) && (forall c :: c in expanded <==> c in done)
  }

  /**
   The state of the search loop. depth and queue are the explorer's own
   variables; parent (who discovered each category), done and expanded (the
   keys expanded so far, as a set and in order), popped (the entries handed
   out so far) and cur (the depth last handed out) are bookkeeping.
   */
  ghost predicate Invariant(adj: Adjacency, seed: string, maxDepth: int,
                            depth: map<string, int>, queue: seq<Entry>, parent: map<string, string>,
                            done: set<string>, cur: int, expanded: seq<string>, popped: seq<Entry>)
  {
    && FrontierInv(depth, queue, done, cur, popped)
    && DepthInv(adj, seed, maxDepth, depth, cur, parent)
    && DoneInv(adj, maxDepth, depth, queue, done, cur, expanded)
  }

  /**
   The entries handed out: all below the bound; each expanded key was handed
   out at its recorded depth, and each key handed out was expanded.
   */
  ghost predicate TraceInv(adj: Adjacency, maxDepth: int, depth: map<string, int>, done: set<string>,
                           popped: seq<Entry>)
  {
    && (forall c :: c in done ==> c in depth && Entry(depth[c], c) in popped)
    && (forall e :: e in popped ==> e.depth < maxDepth && (e.name in adj ==> e.name in done))
  }

  /** The entry at k is the least of the queue. */
  ghost predicate IsMin(queue: seq<Entry>, k: nat)
  {
    k < |queue| && forall j :: 0 <= j < |queue| ==> !Precedes(queue[j], queue[k])
  }

  lemma Start(adj: Adjacency, seed: string, maxDepth: int)
    requires seed in adj
    ensures Invariant(adj, seed, maxDepth, map[seed := 0], [Entry(0, seed)], map[], {}, 0, [], [])
  {
  }

  /** After the least entry m is removed, it precedes every entry left. */
  lemma RestFollows(queue: seq<Entry>, k: nat)
    requires Distinct(queue) && IsMin(queue, k)
    ensures Distinct(RemoveAt(queue, k))
    ensures forall e :: e in RemoveAt(queue, k) ==> e in queue && Precedes(queue[k], e)
  {
    forall e | e in RemoveAt(queue, k) ensures Precedes(queue[k], e) {
      PrecedesTotal(e, queue[k]);
    }
  }

  /** Handing out a category without adjacency entry keeps the frontier invariant. */
  lemma PopMissingFrontier(depth: map<string, int>, queue: seq<Entry>, done: set<string>, cur: int,
                           popped: seq<Entry>, k: nat)
    requires FrontierInv(depth, queue, done, cur, popped)
    requires IsMin(queue, k)
    ensures FrontierInv(depth - {queue[k].name}, RemoveAt(queue, k), done, queue[k].depth, popped + [queue[k]])
  {
    RestFollows(queue, k);
    var m := queue[k];
    assert m in queue;
    forall e | e in RemoveAt(queue, k) ensures e.name != m.name {
      assert e in queue && e != m;
    }
  }

  /** Handing out a category without adjacency entry keeps the depth invariant. */
  lemma PopMissingDepths(adj: Adjacency, seed: string, maxDepth: int, depth: map<string, int>, queue: seq<Entry>,
                         parent: map<string, string>, done: set<string>, cur: int, popped: seq<Entry>, k: nat)
    requires DepthInv(adj, seed, maxDepth, depth, cur, parent) && FrontierInv(depth, queue, done, cur, popped)
    requires IsMin(queue, k) && queue[k].name !in adj
    ensures DepthInv(adj, seed, maxDepth, depth - {queue[k].name}, queue[k].depth, parent)
  {
    assert queue[k] in queue;
  }

  /** Handing out a category without adjacency entry keeps the invariant of the expanded keys. */
  lemma PopMissingDone(adj: Adjacency, maxDepth: int, depth: map<string, int>, queue: seq<Entry>,
                       done: set<string>, cur: int, expanded: seq<string>, popped: seq<Entry>, k: nat)
    requires DoneInv(adj, maxDepth, depth, queue, done, cur, expanded) && FrontierInv(depth, queue, done, cur, popped)
    requires IsMin(queue, k) && queue[k].name !in adj
    ensures DoneInv(adj, maxDepth, depth - {queue[k].name}, RemoveAt(queue, k), done, queue[k].depth, expanded)
  {
    var m := queue[k];
    assert m in queue;
    RestFollows(queue, k);
    forall c | c in depth - {m.name} && c !in done ensures Entry(depth[c], c) in RemoveAt(queue, k) {
      assert Entry(depth[c], c) in queue && Entry(depth[c], c) != m;
    }
  }

  /** Handing out a category without adjacency entry drops its depth record. */
  lemma PopMissing(adj: Adjacency, seed: string, maxDepth: int,
                   depth: map<string, int>, queue: seq<Entry>, parent: map<string, string>,
                   done: set<string>, cur: int, expanded: seq<string>, popped: seq<Entry>, k: nat)
    requires Invariant(adj, seed, maxDepth, depth, queue, parent, done, cur, expanded, popped)
    requires IsMin(queue, k) && queue[k].depth < maxDepth && queue[k].name !in adj
    ensures Invariant(adj, seed, maxDepth, depth - {queue[k].name}, RemoveAt(queue, k), parent,
                      done, queue[k].depth, expanded, popped + [queue[k]])
  {
    PopMissingFrontier(depth, queue, done, cur, popped, k);
    PopMissingDepths(adj, seed, maxDepth, depth, queue, parent, done, cur, popped, k);
    PopMissingDone(adj, maxDepth, depth, queue, done, cur, expanded, popped, k);
  }

  /** Handing out a key and expanding it keeps the frontier invariant. */
  lemma PopKeyFrontier(depth: map<string, int>, queue: seq<Entry>, done: set<string>, cur: int, popped: seq<Entry>,
                       k: nat, subs: seq<string>, newDepth: map<string, int>, newQueue: seq<Entry>,
                       parent: map<string, string>, newParent: map<string, string>)
    requires FrontierInv(depth, queue, done, cur, popped) && done <= depth.Keys
    requires IsMin(queue, k)
    requires ExpansionOf(subs, queue[k].name, queue[k].depth, depth, RemoveAt(queue, k), parent,
                         newDepth, newQueue, newParent)
    ensures FrontierInv(newDepth, newQueue, done + {queue[k].name}, queue[k].depth, popped + [queue[k]])
  {
    RestFollows(queue, k);
    var m := queue[k];
    var rest := RemoveAt(queue, k);
    assert m in queue;
    forall e | e in newQueue
      ensures e.name in newDepth && newDepth[e.name] == e.depth && e.name !in done + {m.name}
      ensures m.depth <= e.depth && Precedes(m, e)
    {
      if e in rest {
        assert e in queue && e != m && Precedes(m, e);
        assert e.name != m.name;
      } else {
        assert e.name in newDepth && e.name !in depth && e.depth == m.depth + 1;
      }
    }
    if popped != [] {
      assert Precedes(popped[|popped| - 1], m);
    }
    var popped' := popped + [m];
    forall i | 0 < i < |popped'| ensures Precedes(popped'[i - 1], popped'[i]) {
      if i < |popped| {
        assert popped'[i - 1] == popped[i - 1] && popped'[i] == popped[i];
      }
    }
  }

  /** Handing out a key and expanding it keeps the depth invariant. */
  lemma PopKeyDepths(adj: Adjacency, seed: string, maxDepth: int, depth: map<string, int>, queue: seq<Entry>,
                     parent: map<string, string>, done: set<string>, cur: int, popped: seq<Entry>, k: nat,
                     newDepth: map<string, int>, newQueue: seq<Entry>, newParent: map<string, string>)
    requires DepthInv(adj, seed, maxDepth, depth, cur, parent) && FrontierInv(depth, queue, done, cur, popped)
    requires IsMin(queue, k) && queue[k].depth < maxDepth && queue[k].name in adj
    requires ExpansionOf(adj[queue[k].name], queue[k].name, queue[k].depth, depth, RemoveAt(queue, k), parent,
                         newDepth, newQueue, newParent)
    ensures DepthInv(adj, seed, maxDepth, newDepth, queue[k].depth, newParent)
  {
    assert queue[k] in queue;
  }

  /** Handing out a key and expanding it keeps the invariant of the expanded keys. */
  lemma PopKeyDone(adj: Adjacency, seed: string, maxDepth: int, depth: map<string, int>, queue: seq<Entry>,
                   parent: map<string, string>, done: set<string>, cur: int, expanded: seq<string>,
                   popped: seq<Entry>, k: nat,
                   newDepth: map<string, int>, newQueue: seq<Entry>, newParent: map<string, string>)
    requires Invariant(adj, seed, maxDepth, depth, queue, parent, done, cur, expanded, popped)
    requires IsMin(queue, k) && queue[k].depth < maxDepth && queue[k].name in adj
    requires ExpansionOf(adj[queue[k].name], queue[k].name, queue[k].depth, depth, RemoveAt(queue, k), parent,
                         newDepth, newQueue, newParent)
    ensures DoneInv(adj, maxDepth, newDepth, newQueue, done + {queue[k].name}, queue[k].depth,
                    expanded + [queue[k].name])
  {
    var m := queue[k];
    assert m in queue;
    RestFollows(queue, k);
    var done' := done + {m.name};
    assert m.name in depth && depth[m.name] == m.depth && m.name !in done && cur <= m.depth;
    forall c | c in done' ensures c in newDepth && newDepth[c] < maxDepth && newDepth[c] <= m.depth {
    }
    forall p, s | p in done' && Edge(adj, p, s) && s in adj
      ensures s in newDepth && newDepth[s] <= newDepth[p] + 1
    {
      if p == m.name {
        assert s in adj[m.name];
        if s in depth {
          assert depth[s] <= cur + 1;
        }
      }
    }
    forall c | c in newDepth && c !in done' ensures Entry(newDepth[c], c) in newQueue {
      if c in depth {
        assert Entry(depth[c], c) in queue && Entry(depth[c], c) != m;
      }
    }
    var expanded' := expanded + [m.name];
    assert m.name !in expanded;
    forall i, j | 0 <= i < j < |expanded'| ensures expanded'[i] != expanded'[j] {
      if j < |expanded| {
        assert expanded'[i] == expanded[i] && expanded'[j] == expanded[j];
      } else {
        assert expanded'[i] == expanded[i] && expanded[i] in expanded;
      }
    }
  }

  /** Handing out a key and expanding it. */
  lemma PopKey(adj: Adjacency, seed: string, maxDepth: int,
               depth: map<string, int>, queue: seq<Entry>, parent: map<string, string>,
               done: set<string>, cur: int, expanded: seq<string>, popped: seq<Entry>, k: nat,
               newDepth: map<string, int>, newQueue: seq<Entry>, newParent: map<string, string>)
    requires Invariant(adj, seed, maxDepth, depth, queue, parent, done, cur, expanded, popped)
    requires IsMin(queue, k) && queue[k].depth < maxDepth && queue[k].name in adj
    requires ExpansionOf(adj[queue[k].name], queue[k].name, queue[k].depth, depth, RemoveAt(queue, k), parent,
                         newDepth, newQueue, newParent)
    ensures Invariant(adj, seed, maxDepth, newDepth, newQueue, newParent,
                      done + {queue[k].name}, queue[k].depth, expanded + [queue[k].name], popped + [queue[k]])
    ensures |adj.Keys - (done + {queue[k].name})| < |adj.Keys - done|
  {
    PopKeyFrontier(depth, queue, done, cur, popped, k, adj[queue[k].name], newDepth, newQueue, parent, newParent);
    PopKeyDepths(adj, seed, maxDepth, depth, queue, parent, done, cur, popped, k, newDepth, newQueue, newParent);
    PopKeyDone(adj, seed, maxDepth, depth, queue, parent, done, cur, expanded, popped, k, newDepth, newQueue, newParent);
    assert queue[k] in queue;
    RemoveOneKey(adj.Keys, done, queue[k].name);
  }

  /** Handing out a category without adjacency entry keeps the trace invariant. */
  lemma PopMissingTrace(adj: Adjacency, maxDepth: int, depth: map<string, int>, queue: seq<Entry>,
                        done: set<string>, cur: int, popped: seq<Entry>, k: nat)
    requires TraceInv(adj, maxDepth, depth, done, popped) && FrontierInv(depth, queue, done, cur, popped)
    requires k < |queue| && queue[k].depth < maxDepth && queue[k].name !in adj
    ensures TraceInv(adj, maxDepth, depth - {queue[k].name}, done, popped + [queue[k]])
  {
    assert queue[k] in queue;
  }

  /** Handing out a key and expanding it keeps the trace invariant. */
  lemma PopKeyTrace(adj: Adjacency, maxDepth: int, depth: map<string, int>, queue: seq<Entry>,
                    parent: map<string, string>, done: set<string>, cur: int, popped: seq<Entry>, k: nat,
                    newDepth: map<string, int>, newQueue: seq<Entry>, newParent: map<string, string>)
    requires TraceInv(adj, maxDepth, depth, done, popped) && FrontierInv(depth, queue, done, cur, popped)
    requires k < |queue| && queue[k].depth < maxDepth && queue[k].name in adj
    requires ExpansionOf(adj[queue[k].name], queue[k].name, queue[k].depth, depth, RemoveAt(queue, k), parent,
                         newDepth, newQueue, newParent)
    ensures TraceInv(adj, maxDepth, newDepth, done + {queue[k].name}, popped + [queue[k]])
  {
    assert queue[k] in queue;
  }

  /** Once every pending entry is at or beyond the bound, the search state gives the explorer's promises. */
  lemma Finish(adj: Adjacency, seed: string, maxDepth: int,
               depth: map<string, int>, queue: seq<Entry>, parent: map<string, string>,
               done: set<string>, cur: int, expanded: seq<string>, popped: seq<Entry>)
    requires Invariant(adj, seed, maxDepth, depth, queue, parent, done, cur, expanded, popped)
    requires forall e :: e in queue ==> e.depth >= maxDepth
    ensures ExplorePost(adj, seed, maxDepth, depth)
    ensures forall c :: c in expanded <==> c in depth && depth[c] < maxDepth
  {
    forall c | c in depth && c != seed
      ensures exists p :: p in depth && Edge(adj, p, c) && depth[p] == depth[c] - 1
    {
      assert parent[c] in depth;
    }
  }

  /**
   The explorer. The returned ghost sequences are the categories expanded, in
   order, and the frontier entries handed out, in order.
   */
  method CategoryDepths(adj: Adjacency, seed: string, maxDepth: int)
    returns (r: map<string, int>, ghost expanded: seq<string>, ghost popped: seq<Entry>)
    ensures ExplorePost(adj, seed, maxDepth, r)
    ensures Distinct(expanded)
    ensures forall c :: c in expanded <==> c in r && r[c] < maxDepth
    ensures forall i :: 0 < i < |popped| ==> Precedes(popped[i - 1], popped[i])
    ensures forall c :: c in expanded ==> Entry(r[c], c) in popped
    ensures forall e :: e in popped ==> e.depth < maxDepth && (e.name in adj ==> e.name in expanded)
  {
    if seed !in adj {
      return map[], [], [];
    }
    var depth := map[seed := 0];
    var queue := [Entry(0, seed)];
    ghost var parent: map<string, string> := map[];
    ghost var done: set<string> := {};
    ghost var cur := 0;
    expanded, popped := [], [];
    Start(adj, seed, maxDepth);
    while queue != []
      invariant Invariant(adj, seed, maxDepth, depth, queue, parent, done, cur, expanded, popped)
      invariant TraceInv(adj, maxDepth, depth, done, popped)
      decreases |adj.Keys - done|, |queue|
    {
      var k := MinIndex(queue);
      var m := queue[k];
      if m.depth >= maxDepth {
        break;
      }
      var rest := RemoveAt(queue, k);
      if m.name in adj {
        RestFollows(queue, k);
        var newDepth, newQueue;
        ghost var newParent;
        newDepth, newQueue, newParent := ExpandChildren(adj[m.name], m.name, m.depth, depth, rest, parent);
        PopKey(adj, seed, maxDepth, depth, queue, parent, done, cur, expanded, popped, k, newDepth, newQueue, newParent);
        PopKeyTrace(adj, maxDepth, depth, queue, parent, done, cur, popped, k, newDepth, newQueue, newParent);
        depth, queue, parent := newDepth, newQueue, newParent;
        done := done + {m.name};
        expanded := expanded + [m.name];
      } else {
        PopMissing(adj, seed, maxDepth, depth, queue, parent, done, cur, expanded, popped, k);
        PopMissingTrace(adj, maxDepth, depth, queue, done, cur, popped, k);
        depth := depth - {m.name};
        queue := rest;
      }
      popped := popped + [m];
      cur := m.depth;
    }
    Finish(adj, seed, maxDepth, depth, queue, parent, done, cur, expanded, popped);
    r := depth;
  }
}
