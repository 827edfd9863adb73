/**
 Category-to-ids maps (the article index) and the number of
 (category, id) pairs they hold, independent of the order of their keys.
 */
module Buckets {

  type Buckets = map<string, seq<string>>

  /** Length of the list under c, 0 when c is not a key. */
  function Len(m: Buckets, c: string): nat
  {
    if c in m then |m[c]| else 0
  }

  /** Sum of the list lengths over the categories ks. */
  ghost function SumOver(m: Buckets, ks: set<string>): nat
    decreases ks
  {
    if ks == {} then 0
    else
      var c :| c in ks;
      Len(m, c) + SumOver(m, ks - {c})
  }

  /** The number of (category, id) pairs of m. */
  ghost function Total(m: Buckets): nat
  {
    SumOver(m, m.Keys)
  }

  /** The sum can be split at any category, whichever the definition happened to pick. */
  lemma {:induction false} SumOverPick(m: Buckets, ks: set<string>, c: string)
    requires c in ks
    ensures SumOver(m, ks) == Len(m, c) + SumOver(m, ks - {c})
    decreases ks
  {
    var x :| x in ks && SumOver(m, ks) == Len(m, x) + SumOver(m, ks - {x});
    if x != c {
      assert ks - {x} - {c} == ks - {c} - {x};
      SumOverPick(m, ks - {x}, c);
      SumOverPick(m, ks - {c}, x);
    }
  }

  /** The sum only depends on the lengths of the lists under ks. */
  lemma {:induction false} SumOverFrame(m: Buckets, m': Buckets, ks: set<string>)
    requires forall c :: c in ks ==> Len(m, c) == Len(m', c)
    ensures SumOver(m, ks) == SumOver(m', ks)
    decreases ks
  {
    if ks != {} {
      var c :| c in ks;
      SumOverPick(m, ks, c);
      SumOverPick(m', ks, c);
      SumOverFrame(m, m', ks - {c});
    }
  }

  /** Appending one id under c adds one pair, whether or not c was a key. */
  lemma TotalAppend(m: Buckets, c: string, x: string)
    ensures Total(m[c := (if c in m then m[c] else []) + [x]]) == Total(m) + 1
  {
    var m' := m[c := (if c in m then m[c] else []) + [x]];
    if c in m {
      assert m'.Keys == m.Keys;
      SumOverPick(m', m.Keys, c);
      SumOverPick(m, m.Keys, c);
      SumOverFrame(m, m', m.Keys - {c});
    } else {
      assert m'.Keys == m.Keys + {c} && m'.Keys - {c} == m.Keys;
      SumOverPick(m', m'.Keys, c);
      SumOverFrame(m, m', m.Keys);
    }
  }

  /** The distinct ids listed under the categories ks. */
  ghost function IdsOver(m: Buckets, ks: set<string>): set<string>
  {
    set c, x | c in ks && c in m && x in m[c] :: x
  }

  /** The distinct ids of m: the target-id set. */
  ghost function AllIds(m: Buckets): set<string>
  {
    IdsOver(m, m.Keys)
  }

  function Elems(s: seq<string>): set<string>
  {
    set x | x in s
  }

  lemma {:induction false} ElemsBound(s: seq<string>)
    ensures |Elems(s)| <= |s|
  {
    if s != [] {
      ElemsBound(s[1..]);
      assert Elems(s) == {s[0]} + Elems(s[1..]);
    }
  }

  /** There are never more distinct ids than (category, id) pairs. */
  lemma {:induction false} IdsOverBound(m: Buckets, ks: set<string>)
    ensures |IdsOver(m, ks)| <= SumOver(m, ks)
    decreases ks
  {
    if ks != {} {
      var c :| c in ks;
      SumOverPick(m, ks, c);
      IdsOverBound(m, ks - {c});
      var here := if c in m then Elems(m[c]) else {};
      assert IdsOver(m, ks) == here + IdsOver(m, ks - {c});
      if c in m {
        ElemsBound(m[c]);
      }
    }
  }
}
