/** What the graph, the weights and the line counts of the report mean in terms of
    the module table alone. */
module ModuleRefs {
  import opened Basics
  import opened Digraph
  import opened EdgeWeights
  import opened TarjanTheory
  import opened EadesTheory
  import opened Eades
  import opened Planner

  // ---------------------------------------------------------------- chains of references

  /** A module of the table that is not a full facade. */
  ghost predicate Analyzed(info: Table, n: Name) {
    n in info && !info[n].fully
  }

  /** Each module of the chain refers to the next, and all of them are analyzed. */
  ghost predicate Chain(info: Table, path: seq<Name>) {
    && path != []
    && (forall i :: 0 <= i < |path| ==> Analyzed(info, path[i]))
    && (forall i :: 0 <= i < |path| - 1 ==> path[i + 1] in info[path[i]].outbound)
  }

  ghost predicate ChainBetween(info: Table, path: seq<Name>, u: Name, v: Name) {
    Chain(info, path) && path[0] == u && path[|path| - 1] == v
  }

  ghost predicate Linked(info: Table, u: Name, v: Name) {
    exists path :: ChainBetween(info, path, u, v)
  }

  /** A closed chain of more than one module. */
  ghost predicate ClosedChain(info: Table, path: seq<Name>) {
    Chain(info, path) && path[0] == path[|path| - 1] && exists i :: 0 <= i < |path| && path[i] != path[0]
  }

  lemma GraphEdge(info: Table, u: Name, v: Name)
    ensures v in Succ(BuildGraph(info), u) <==> Analyzed(info, u) && Analyzed(info, v) && v in info[u].outbound && u != v
  {
  }

  lemma GraphVertices(info: Table, n: Name)
    ensures n in Vertices(BuildGraph(info)) <==> Analyzed(info, n)
  {
    GraphKeys(info);
  }

  lemma LinkedSelf(info: Table, u: Name)
    requires Analyzed(info, u)
    ensures Linked(info, u, u)
  {
    assert ChainBetween(info, [u], u, u);
  }

  lemma ChainCons(info: Table, u: Name, w: Name, v: Name)
    requires Analyzed(info, u) && w in info[u].outbound && Linked(info, w, v)
    ensures Linked(info, u, v)
  {
    var path :| ChainBetween(info, path, w, v);
    var longer := [u] + path;
    forall i | 0 <= i < |longer|
      ensures Analyzed(info, longer[i]) && (i < |longer| - 1 ==> longer[i + 1] in info[longer[i]].outbound)
    {
      if i > 0 {
        assert longer[i] == path[i - 1];
      }
    }
    assert ChainBetween(info, longer, u, v);
  }

  lemma {:induction false} WalkIsChain(info: Table, u: Name, v: Name, n: nat)
    requires Analyzed(info, u) && ReachIn(BuildGraph(info), u, v, n)
    ensures Linked(info, u, v)
    decreases n
  {
    if n == 0 {
      LinkedSelf(info, u);
    } else {
      var w :| w in Succ(BuildGraph(info), u) && ReachIn(BuildGraph(info), w, v, n - 1);
      GraphEdge(info, u, w);
      WalkIsChain(info, w, v, n - 1);
      ChainCons(info, u, w, v);
    }
  }

  lemma ChainTail(info: Table, path: seq<Name>)
    requires Chain(info, path) && |path| > 1
    ensures Chain(info, path[1..])
  {
    var rest := path[1..];
    forall i | 0 <= i < |rest|
      ensures Analyzed(info, rest[i]) && (i < |rest| - 1 ==> rest[i + 1] in info[rest[i]].outbound)
    {
      assert rest[i] == path[i + 1];
    }
  }

  lemma {:induction false} ChainIsWalk(info: Table, path: seq<Name>, k: nat)
    requires Chain(info, path) && k < |path|
    ensures Reach(BuildGraph(info), path[0], path[k]) && Reach(BuildGraph(info), path[k], path[|path| - 1])
    decreases |path|
  {
    var g := BuildGraph(info);
    ReachSelf(g, path[0]);
    if |path| > 1 {
      ChainTail(info, path);
      GraphEdge(info, path[0], path[1]);
      if path[0] != path[1] {
        ReachEdge(g, path[0], path[1]);
      }
      var rest := path[1..];
      ChainIsWalk(info, rest, if k == 0 then 0 else k - 1);
      if k > 0 {
        ReachTrans(g, path[0], path[1], path[k]);
      } else {
        ReachTrans(g, path[0], path[1], path[|path| - 1]);
      }
    }
  }

  /** One module leads to another by a chain exactly when the graph has a walk. */
  lemma LinkedIsReach(info: Table, u: Name, v: Name)
    requires Analyzed(info, u)
    ensures Linked(info, u, v) <==> Reach(BuildGraph(info), u, v)
  {
    if Linked(info, u, v) {
      var path :| ChainBetween(info, path, u, v);
      ChainIsWalk(info, path, 0);
    }
    if Reach(BuildGraph(info), u, v) {
      var n: nat :| ReachIn(BuildGraph(info), u, v, n);
      WalkIsChain(info, u, v, n);
    }
  }

  /** A closed chain of more than one module is a cycle of the graph, and the other
      way round. */
  lemma AcyclicMeansNoChain(info: Table)
    ensures Acyclic(BuildGraph(info)) <==> !exists path :: ClosedChain(info, path)
  {
    var g := BuildGraph(info);
    if path :| ClosedChain(info, path) {
      var k :| 0 <= k < |path| && path[k] != path[0];
      ChainIsWalk(info, path, k);
      var n: nat :| ReachIn(g, path[0], path[k], n);
      var w :| w in Succ(g, path[0]) && ReachIn(g, w, path[k], n - 1);
      assert Reach(g, w, path[k]);
      ReachTrans(g, w, path[k], path[0]);
    }
    if !Acyclic(g) {
      var u, v :| v in Succ(g, u) && Reach(g, v, u);
      GraphEdge(info, u, v);
      LinkedIsReach(info, v, u);
      ClosedChainFrom(info, u, v);
    }
  }

  lemma ClosedChainFrom(info: Table, u: Name, v: Name)
    requires Analyzed(info, u) && v in info[u].outbound && u != v && Linked(info, v, u)
    ensures exists path :: ClosedChain(info, path)
  {
    var path :| ChainBetween(info, path, v, u);
    var longer := [u] + path;
    forall i | 0 <= i < |longer|
      ensures Analyzed(info, longer[i]) && (i < |longer| - 1 ==> longer[i + 1] in info[longer[i]].outbound)
    {
      if i > 0 {
        assert longer[i] == path[i - 1];
      }
    }
    assert longer[1] != longer[0];
    assert ClosedChain(info, longer);
  }

  /** What the component list says about the table: it has every analyzed module
      exactly once and nothing else, two modules share a component exactly when
      chains lead both ways, and no module refers to one of a later component. */
  ghost predicate ComponentsOf(info: Table, sccs: seq<seq<Name>>) {
    && Disjoint(sccs)
    && (forall n :: Analyzed(info, n) <==> Among(sccs, |sccs|, n))
    && (forall u, v :: Analyzed(info, u) && Analyzed(info, v) ==>
         (Together(sccs, u, v) <==> Linked(info, u, v) && Linked(info, v, u)))
    && (forall i, x, y :: 0 <= i < |sccs| && x in sccs[i] && Analyzed(info, x) && Analyzed(info, y) && y in info[x].outbound ==>
         Among(sccs, i + 1, y))
  }

  lemma ComponentsMeaning(info: Table, sccs: seq<seq<Name>>)
    requires IsDecomposition(BuildGraph(info), sccs)
    ensures ComponentsOf(info, sccs)
  {
    forall n
      ensures Analyzed(info, n) <==> Among(sccs, |sccs|, n)
    {
      GraphVertices(info, n);
    }
    forall u, v | Analyzed(info, u) && Analyzed(info, v)
      ensures Together(sccs, u, v) <==> Linked(info, u, v) && Linked(info, v, u)
    {
      GraphVertices(info, u);
      GraphVertices(info, v);
      LinkedIsReach(info, u, v);
      LinkedIsReach(info, v, u);
    }
    forall i, x, y | 0 <= i < |sccs| && x in sccs[i] && Analyzed(info, x) && Analyzed(info, y) && y in info[x].outbound
      ensures Among(sccs, i + 1, y)
    {
      assert Among(sccs, |sccs|, x);
      GraphEdge(info, x, y);
    }
  }

  // ---------------------------------------------------------------- lines and references

  ghost function LocOf(info: Table): Name -> nat {
    n => if n in info then info[n].loc else 0
  }

  /** The lines of a set of modules. */
  ghost function Lines(info: Table, c: set<Name>): nat {
    SumOf(c, LocOf(info))
  }

  lemma {:induction false} SumLocIsLines(info: Table, c: seq<Name>)
    requires NoDup(c)
    ensures SumLoc(info, c) == Lines(info, NodeSet(c))
    decreases |c|
  {
    if c != [] {
      var n, rest := c[0], c[1..];
      SumLocIsLines(info, rest);
      assert n !in NodeSet(rest);
      assert NodeSet(c) == NodeSet(rest) + {n};
      SumAdd(NodeSet(rest), LocOf(info), n);
    }
  }

  /** Of the components of more than one module this has the most lines. */
  ghost predicate MostLines(info: Table, sccs: seq<seq<Name>>, big: seq<Name>) {
    && big in sccs && |big| > 1
    && forall c :: c in sccs && |c| > 1 ==> Lines(info, NodeSet(c)) <= Lines(info, NodeSet(big))
  }

  /** How often `u` refers to `v`: a missing count stands for one. */
  ghost function RefCount(info: Table, e: Edge): nat {
    if e.0 !in info then 0 else if e.1 in info[e.0].refCounts then info[e.0].refCounts[e.1] else 1
  }

  ghost function RefCounts(info: Table): Edge -> nat {
    e => RefCount(info, e)
  }

  /** The references along a set of edges. */
  ghost function Refs(info: Table, s: set<Edge>): nat {
    SumOf(s, RefCounts(info))
  }

  /** Which modules of `c` refer to which others of `c`. */
  ghost function RefEdges(info: Table, c: set<Name>): set<Edge> {
    set u, v | u in c && u in info && v in info[u].outbound && v in c && u != v :: (u, v)
  }

  lemma EdgesAreRefs(info: Table, c: set<Name>)
    requires c <= info.Keys
    ensures EdgesOf(c, OutEdgesWithin(info, c)) == RefEdges(info, c)
  {
  }

  lemma WeightIsCount(info: Table, c: set<Name>, e: Edge)
    requires c <= info.Keys && e in RefEdges(info, c)
    ensures Weight(OutEdgesWithin(info, c), e) == RefCount(info, e)
  {
  }

  lemma {:induction false} TotalIsRefs(info: Table, c: set<Name>, s: set<Edge>)
    requires c <= info.Keys && s <= RefEdges(info, c)
    ensures Total(OutEdgesWithin(info, c), s) == Refs(info, s)
    decreases |s|
  {
    if s != {} {
      var e :| e in s;
      TotalIsRefs(info, c, s - {e});
      TotalRemove(OutEdgesWithin(info, c), s, e);
      SumRemove(s, RefCounts(info), e);
      WeightIsCount(info, c, e);
    }
  }

  // ---------------------------------------------------------------- the plan

  ghost predicate Before(order: seq<Name>, x: Name, y: Name) {
    exists i, j :: 0 <= i < j < |order| && order[i] == x && order[j] == y
  }

  /** The references that point backwards in the order. */
  ghost function BackRefs(info: Table, order: seq<Name>): set<Edge> {
    set e | e in RefEdges(info, NodeSet(order)) && Before(order, e.1, e.0)
  }

  ghost function RefsFrom(info: Table, c: set<Name>, n: Name): set<Edge> {
    set e | e in RefEdges(info, c) && e.0 == n
  }

  ghost predicate ListsRefs(info: Table, list: seq<Listed>, back: set<Edge>) {
    && (forall i :: 0 <= i < |list| ==> (list[i].u, list[i].v) in back && list[i].w == RefCount(info, (list[i].u, list[i].v)))
    && (forall i, j :: 0 <= i < j < |list| ==> (list[i].u, list[i].v) != (list[j].u, list[j].v))
    && (forall e :: e in back ==> exists i :: 0 <= i < |list| && (list[i].u, list[i].v) == e)
  }

  /** What the plan for a cycle says about the table: the list names each reference
      that points backwards in the order, once, with its count; these are at most
      half of all references inside the cycle; and each member's cost is the
      number of other members it refers to, and how often. */
  ghost predicate PlanReads(info: Table, p: Plan) {
    var c := NodeSet(p.big);
    && IsOrderOf(p.order, c)
    && ListsRefs(info, p.backEdges, BackRefs(info, p.order))
    && p.totalBack == Refs(info, BackRefs(info, p.order))
    && 2 * p.totalBack <= Refs(info, RefEdges(info, c))
    && |p.evictions| == |p.big|
    && forall i :: 0 <= i < |p.big| ==>
         p.evictions[i] == Eviction(|RefsFrom(info, c, p.big[i])|, Refs(info, RefsFrom(info, c, p.big[i])), p.big[i])
  }

  lemma BeforeByPosition(order: seq<Name>, x: Name, y: Name)
    requires NoDup(order) && x in order && y in order
    ensures Before(order, x, y) <==> Positions(order)[x] < Positions(order)[y]
  {
    var i :| 0 <= i < |order| && order[i] == x;
    var j :| 0 <= j < |order| && order[j] == y;
    PositionsAt(order, i);
    PositionsAt(order, j);
  }

  lemma BackEdgesAreRefs(info: Table, c: set<Name>, order: seq<Name>)
    requires c <= info.Keys && IsOrderOf(order, c)
    ensures BackEdges(c, OutEdgesWithin(info, c), order) == BackRefs(info, order)
  {
    assert NodeSet(order) == c;
    EdgesAreRefs(info, c);
    forall e | e in RefEdges(info, c)
      ensures Before(order, e.1, e.0) <==> e in BackEdges(c, OutEdgesWithin(info, c), order)
    {
      BeforeByPosition(order, e.1, e.0);
    }
  }

  lemma ListMeaning(info: Table, c: set<Name>, list: seq<Listed>, back: set<Edge>)
    requires c <= info.Keys && back <= RefEdges(info, c) && ListsExactly(list, OutEdgesWithin(info, c), back)
    ensures ListsRefs(info, list, back)
  {
    forall i | 0 <= i < |list|
      ensures list[i].w == RefCount(info, (list[i].u, list[i].v))
    {
      WeightIsCount(info, c, (list[i].u, list[i].v));
    }
  }

  lemma InsideAreRefs(info: Table, c: set<Name>, n: Name)
    requires c <= info.Keys && n in c
    ensures InsideEdges(OutEdgesWithin(info, c), n) == RefsFrom(info, c, n)
  {
  }

  /** The score the heuristic compares: how often `n` refers to what is left, minus
      how often what is left refers to `n`. */
  lemma ScoreIsRefs(info: Table, c: set<Name>, rest: set<Name>, n: Name)
    requires c <= info.Keys
    ensures Score(OutEdgesWithin(info, c), EdgesOf(c, OutEdgesWithin(info, c)), rest, n)
            == Refs(info, set e | e in RefEdges(info, c) && e.0 == n && e.1 in rest)
               - Refs(info, set e | e in RefEdges(info, c) && e.1 == n && e.0 in rest)
  {
    var edges := RefEdges(info, c);
    EdgesAreRefs(info, c);
    TotalIsRefs(info, c, OutOf(edges, rest, n));
    TotalIsRefs(info, c, Into(edges, rest, n));
    assert OutOf(edges, rest, n) == set e | e in RefEdges(info, c) && e.0 == n && e.1 in rest;
    assert Into(edges, rest, n) == set e | e in RefEdges(info, c) && e.1 == n && e.0 in rest;
  }
}
