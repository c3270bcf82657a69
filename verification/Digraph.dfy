/** Finite directed graphs over module names, and reachability in them.

    A graph maps a module to the set of modules it refers to. A name that only
    occurs as a target has no entry of its own and then no successors, which is
    how `graph.get(v, ())` reads it. */
module Digraph {
  import opened Basics

  /** A top-level module of the crate. */
  datatype Name = Name(text: string)

  type Graph = map<Name, set<Name>>

  function Succ(g: Graph, v: Name): set<Name> {
    if v in g then g[v] else {}
  }

  /** Every name the graph mentions, as a key or as a target. */
  function Vertices(g: Graph): set<Name> {
    g.Keys + set u, v | u in g.Keys && v in g[u] :: v
  }

  /** `v` is reached from `u` by a walk of exactly `n` edges. */
  ghost predicate ReachIn(g: Graph, u: Name, v: Name, n: nat)
    decreases n
  {
    if n == 0 then u == v else exists w :: w in Succ(g, u) && ReachIn(g, w, v, n - 1)
  }

  ghost predicate Reach(g: Graph, u: Name, v: Name) {
    exists n: nat :: ReachIn(g, u, v, n)
  }

  ghost predicate Mutual(g: Graph, u: Name, v: Name) {
    Reach(g, u, v) && Reach(g, v, u)
  }

  /** No edge lies on a closed walk; in particular there is no self-loop. */
  ghost predicate Acyclic(g: Graph) {
    forall u, v :: v in Succ(g, u) ==> !Reach(g, v, u)
  }

  ghost predicate NoSelfLoops(g: Graph) {
    forall u :: u !in Succ(g, u)
  }

  ghost predicate Closed(g: Graph, s: set<Name>) {
    forall x :: x in s ==> Succ(g, x) <= s
  }

  lemma ReachSelf(g: Graph, u: Name)
    ensures Reach(g, u, u)
  {
    assert ReachIn(g, u, u, 0);
  }

  lemma ReachFromEdge(g: Graph, u: Name, w: Name, v: Name)
    requires w in Succ(g, u) && Reach(g, w, v)
    ensures Reach(g, u, v)
  {
    var n: nat :| ReachIn(g, w, v, n);
    assert ReachIn(g, u, v, n + 1);
  }

  lemma ReachEdge(g: Graph, u: Name, v: Name)
    requires v in Succ(g, u)
    ensures Reach(g, u, v)
  {
    ReachSelf(g, v);
    ReachFromEdge(g, u, v, v);
  }

  lemma {:induction false} ReachInAppend(g: Graph, u: Name, v: Name, w: Name, m: nat, n: nat)
    requires ReachIn(g, u, v, m) && ReachIn(g, v, w, n)
    ensures ReachIn(g, u, w, m + n)
    decreases m
  {
    if m > 0 {
      var x :| x in Succ(g, u) && ReachIn(g, x, v, m - 1);
      ReachInAppend(g, x, v, w, m - 1, n);
    }
  }

  lemma ReachTrans(g: Graph, u: Name, v: Name, w: Name)
    requires Reach(g, u, v) && Reach(g, v, w)
    ensures Reach(g, u, w)
  {
    var m: nat :| ReachIn(g, u, v, m);
    var n: nat :| ReachIn(g, v, w, n);
    ReachInAppend(g, u, v, w, m, n);
  }

  lemma ReachThenEdge(g: Graph, u: Name, v: Name, w: Name)
    requires Reach(g, u, v) && w in Succ(g, v)
    ensures Reach(g, u, w)
  {
    ReachEdge(g, v, w);
    ReachTrans(g, u, v, w);
  }

  lemma {:induction false} ClosedReachIn(g: Graph, s: set<Name>, u: Name, v: Name, n: nat)
    requires Closed(g, s) && u in s && ReachIn(g, u, v, n)
    ensures v in s
    decreases n
  {
    if n > 0 {
      var w :| w in Succ(g, u) && ReachIn(g, w, v, n - 1);
      ClosedReachIn(g, s, w, v, n - 1);
    }
  }

  /** A walk never leaves a set that is closed under successors. */
  lemma ClosedReach(g: Graph, s: set<Name>, u: Name, v: Name)
    requires Closed(g, s) && u in s && Reach(g, u, v)
    ensures v in s
  {
    var n: nat :| ReachIn(g, u, v, n);
    ClosedReachIn(g, s, u, v, n);
  }

  /** Walks are kept when every edge of `g` is a walk of `h`. */
  lemma {:induction false} ReachInMapped(g: Graph, h: Graph, u: Name, v: Name, n: nat)
    requires forall x, y :: y in Succ(g, x) ==> Reach(h, x, y)
    requires ReachIn(g, u, v, n)
    ensures Reach(h, u, v)
    decreases n
  {
    if n == 0 {
      ReachSelf(h, u);
    } else {
      var w :| w in Succ(g, u) && ReachIn(g, w, v, n - 1);
      ReachInMapped(g, h, w, v, n - 1);
      ReachTrans(h, u, w, v);
    }
  }

  lemma ReachMapped(g: Graph, h: Graph, u: Name, v: Name)
    requires forall x, y :: y in Succ(g, x) ==> Reach(h, x, y)
    requires Reach(g, u, v)
    ensures Reach(h, u, v)
  {
    var n: nat :| ReachIn(g, u, v, n);
    ReachInMapped(g, h, u, v, n);
  }

  ghost predicate HasSuccIn(g: Graph, u: Name, r: set<Name>) {
    exists w :: w in r && w in Succ(g, u)
  }

  ghost predicate NoSink(g: Graph, r: set<Name>) {
    forall x {:trigger HasSuccIn(g, x, r)} :: x in r ==> HasSuccIn(g, x, r)
  }

  /** `v` is reached from `u` by at least one edge. */
  ghost predicate ReachPlus(g: Graph, u: Name, v: Name) {
    exists w :: w in Succ(g, u) && Reach(g, w, v)
  }

  lemma ReachPlusThenEdge(g: Graph, u: Name, v: Name, w: Name)
    requires ReachPlus(g, u, v) && w in Succ(g, v)
    ensures ReachPlus(g, u, w)
  {
    var z :| z in Succ(g, u) && Reach(g, z, v);
    ReachThenEdge(g, z, v, w);
  }

  lemma ReachPlusSelfIsCycle(g: Graph, x: Name)
    requires ReachPlus(g, x, x)
    ensures !Acyclic(g)
  {
  }

  /** The part of `r` strictly after `x`. */
  ghost function After(g: Graph, r: set<Name>, x: Name): set<Name> {
    set y | y in r && ReachPlus(g, x, y)
  }

  lemma AfterHasSucc(g: Graph, r: set<Name>, x: Name, y: Name)
    requires y in After(g, r, x) && HasSuccIn(g, y, r)
    ensures HasSuccIn(g, y, After(g, r, x))
  {
    var w :| w in r && w in Succ(g, y);
    ReachPlusThenEdge(g, x, y, w);
    assert w in After(g, r, x);
  }

  lemma AfterNonEmpty(g: Graph, r: set<Name>, x: Name)
    requires HasSuccIn(g, x, r)
    ensures After(g, r, x) != {}
  {
    var z :| z in r && z in Succ(g, x);
    ReachSelf(g, z);
    assert z in After(g, r, x);
  }

  /** A finite non-empty set in which every vertex has a successor holds a cycle. */
  lemma {:induction false} NoSinkGivesCycle(g: Graph, r: set<Name>)
    requires r != {}
    requires NoSink(g, r)
    ensures !Acyclic(g)
    decreases |r|
  {
    var x :| x in r;
    if ReachPlus(g, x, x) {
      ReachPlusSelfIsCycle(g, x);
    } else {
      var after := After(g, r, x);
      assert HasSuccIn(g, x, r);
      AfterNonEmpty(g, r, x);
      forall y | y in after
        ensures HasSuccIn(g, y, after)
      {
        assert HasSuccIn(g, y, r);
        AfterHasSucc(g, r, x, y);
      }
      assert after <= r - {x};
      SubsetSize(after, r - {x});
      NoSinkGivesCycle(g, after);
    }
  }
}
