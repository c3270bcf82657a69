/** The whole cycle report, and what its two suggestions are worth: inverting or
    cutting the listed back edges, and evicting one member. */
module CycleReport {
  import opened Basics
  import opened Digraph
  import opened EdgeWeights
  import TarjanTheory
  import Tarjan
  import opened CycleTheory
  import opened EadesTheory
  import opened EadesRuns
  import opened Eades
  import opened Planner
  import opened ModuleRefs

  ghost predicate LargestCycle(info: Table, sccs: seq<seq<Name>>, big: seq<Name>) {
    && big in sccs && |big| > 1
    && forall c :: c in sccs && |c| > 1 ==> SumLoc(info, c) <= SumLoc(info, big)
  }

  /** The table of eviction costs has one entry for each member, in order. */
  ghost predicate CostsExactly(evict: seq<Eviction>, big: seq<Name>, out: OutEdges) {
    && |evict| == |big|
    && forall i :: 0 <= i < |big| ==>
         evict[i] == Eviction(|InsideEdges(out, big[i])|, Total(out, InsideEdges(out, big[i])), big[i])
  }

  ghost predicate PlanOk(info: Table, sccs: seq<seq<Name>>, p: Plan) {
    var c := NodeSet(p.big);
    && LargestCycle(info, sccs, p.big)
    && c <= info.Keys
    && var out := OutEdgesWithin(info, c);
    && IsOrderOf(p.order, c) && IsGreedyOrder(c, out, p.order)
    && ListsExactly(p.backEdges, out, BackEdges(c, out, p.order))
    && p.totalBack == Total(out, BackEdges(c, out, p.order))
    && 2 * p.totalBack <= Total(out, EdgesOf(c, out))
    && CostsExactly(p.evictions, p.big, out)
  }

  /** One of the components of more than one node that has the most lines, if there is any. */
  method PickLargest(info: Table, sccs: seq<seq<Name>>) returns (big: Option<seq<Name>>)
    ensures big.None? <==> AllSingletons(sccs)
    ensures big.Some? ==> LargestCycle(info, sccs, big.value)
  {
    big := None;
    for i := 0 to |sccs|
      invariant big.None? <==> forall j :: 0 <= j < i ==> |sccs[j]| <= 1
      invariant big.Some? ==> big.value in sccs && |big.value| > 1
      invariant big.Some? ==>
                  forall j :: 0 <= j < i && |sccs[j]| > 1 ==> SumLoc(info, sccs[j]) <= SumLoc(info, big.value)
    {
      if |sccs[i]| > 1 && (big.None? || SumLoc(info, sccs[i]) > SumLoc(info, big.value)) {
        big := Some(sccs[i]);
      }
    }
  }

  lemma MembersKnown(info: Table, sccs: seq<seq<Name>>, big: seq<Name>)
    requires TarjanTheory.IsDecomposition(BuildGraph(info), sccs) && big in sccs
    ensures NodeSet(big) <= BuildGraph(info).Keys <= info.Keys
    ensures NoDup(big)
    ensures IsComponent(BuildGraph(info), NodeSet(big))
  {
    var g := BuildGraph(info);
    GraphKeys(info);
    var i :| 0 <= i < |sccs| && sccs[i] == big;
    forall x | x in big
      ensures x in Vertices(g)
    {
      assert TarjanTheory.Among(sccs, |sccs|, x);
    }
    ReportedIsComponent(g, sccs, i);
  }

  lemma LargestHasMostLines(info: Table, sccs: seq<seq<Name>>, big: seq<Name>)
    requires LargestCycle(info, sccs, big) && forall c :: c in sccs ==> NoDup(c)
    ensures MostLines(info, sccs, big)
  {
    SumLocIsLines(info, big);
    forall c | c in sccs && |c| > 1
      ensures Lines(info, NodeSet(c)) <= Lines(info, NodeSet(big))
    {
      SumLocIsLines(info, c);
    }
  }

  /** What the plan means in terms of the table. */
  lemma PlanMeaning(info: Table, sccs: seq<seq<Name>>, p: Plan)
    requires TarjanTheory.IsDecomposition(BuildGraph(info), sccs) && PlanOk(info, sccs, p)
    ensures MostLines(info, sccs, p.big) && PlanReads(info, p)
  {
    var c := NodeSet(p.big);
    var out := OutEdgesWithin(info, c);
    var back := BackEdges(c, out, p.order);
    LargestHasMostLines(info, sccs, p.big);
    BackEdgesAreRefs(info, c, p.order);
    EdgesAreRefs(info, c);
    ListMeaning(info, c, p.backEdges, back);
    TotalIsRefs(info, c, back);
    TotalIsRefs(info, c, EdgesOf(c, out));
    forall i | 0 <= i < |p.big|
      ensures p.evictions[i] == Eviction(|RefsFrom(info, c, p.big[i])|, Refs(info, RefsFrom(info, c, p.big[i])), p.big[i])
    {
      InsideAreRefs(info, c, p.big[i]);
      TotalIsRefs(info, c, RefsFrom(info, c, p.big[i]));
    }
  }

  /** The whole report. In terms of the table: the components of the modules that
      are not full facades, and, exactly when some closed chain of references has
      more than one module, a plan for a cycle of the most lines. */
  method AnalyzeCycles(info: Table) returns (sccs: seq<seq<Name>>, plan: Option<Plan>)
    ensures ComponentsOf(info, sccs)
    ensures plan.None? <==> !exists path :: ClosedChain(info, path)
    ensures plan.Some? ==> MostLines(info, sccs, plan.value.big) && PlanReads(info, plan.value)
    ensures TarjanTheory.IsDecomposition(BuildGraph(info), sccs)
    ensures plan.Some? ==> PlanOk(info, sccs, plan.value)
  {
    var g := BuildGraph(info);
    sccs := Tarjan.StronglyConnectedComponents(g);
    GraphKeys(info);
    NoCyclesIffAcyclic(g, sccs);
    ComponentsMeaning(info, sccs);
    AcyclicMeansNoChain(info);
    var pick := PickLargest(info, sccs);
    if pick.None? {
      return sccs, None;
    }
    MembersKnown(info, sccs, pick.value);
    var p := PlanFor(info, pick.value);
    PlanMeaning(info, sccs, p);
    plan := Some(p);
  }

  method PlanFor(info: Table, big: seq<Name>) returns (p: Plan)
    requires NodeSet(big) <= info.Keys && NoDup(big)
    ensures p.big == big
    ensures var c, out := NodeSet(big), OutEdgesWithin(info, NodeSet(big));
            && IsOrderOf(p.order, c) && IsGreedyOrder(c, out, p.order)
            && ListsExactly(p.backEdges, out, BackEdges(c, out, p.order))
            && p.totalBack == Total(out, BackEdges(c, out, p.order))
            && 2 * p.totalBack <= Total(out, EdgesOf(c, out))
            && CostsExactly(p.evictions, big, out)
  {
    var out := OutEdgesWithin(info, NodeSet(big));
    WithinWellFormed(info, NodeSet(big));
    var order := EadesOrder(big, out);
    var list, total := ListBackEdges(big, out, order);
    var evict := Costs(big, out);
    p := Plan(big, order, list, total, evict);
  }

  // ---------------------------------------------------------------- any vertex order

  lemma PositionsInjective(order: seq<Name>, nodes: set<Name>)
    requires IsOrderOf(order, nodes)
    ensures nodes == Positions(order).Keys && Injective(nodes, Positions(order))
  {
    PositionKeys(order, nodes);
  }

  lemma KeptEdgeIsForward(nodes: set<Name>, out: OutEdges, order: seq<Name>, x: Name, y: Name)
    requires WellFormed(nodes, out) && IsOrderOf(order, nodes) && NoSelfLoops(GraphOf(nodes, out))
    requires y in Succ(GraphOf(nodes, out), x) && (x, y) !in BackEdges(nodes, out, order)
    requires nodes == Positions(order).Keys && Injective(nodes, Positions(order))
    ensures x in nodes && y in nodes && Positions(order)[x] < Positions(order)[y]
  {
    assert (x, y) in EdgesOf(nodes, out);
  }

  /** All edges are among `nodes` and lead to a higher position. */
  ghost predicate AllForward(h: Graph, nodes: set<Name>, pos: map<Name, nat>)
    requires nodes <= pos.Keys
  {
    h.Keys <= nodes && forall x, y :: y in Succ(h, x) ==> y in nodes && x in nodes && pos[x] < pos[y]
  }

  lemma ForwardEdgesAcyclic(h: Graph, nodes: set<Name>, pos: map<Name, nat>)
    requires nodes <= pos.Keys && AllForward(h, nodes, pos)
    ensures Acyclic(h)
  {
    forall v | v in Vertices(h)
      ensures v in nodes
    {
      if v !in h {
        var u :| u in h && v in h[u];
        assert v in Succ(h, u);
      }
    }
    AllForwardAcyclic(h, pos);
  }

  lemma KeptEdgesForward(nodes: set<Name>, out: OutEdges, order: seq<Name>)
    requires WellFormed(nodes, out) && IsOrderOf(order, nodes) && NoSelfLoops(GraphOf(nodes, out))
    requires nodes <= Positions(order).Keys
    ensures AllForward(Cut(GraphOf(nodes, out), BackEdges(nodes, out, order)), nodes, Positions(order))
  {
    forall x, y | y in Succ(Cut(GraphOf(nodes, out), BackEdges(nodes, out, order)), x)
      ensures y in nodes && x in nodes && Positions(order)[x] < Positions(order)[y]
    {
      CutEdgeIsForward(nodes, out, order, x, y);
    }
  }

  /** The back edges of any order are a feedback arc set. */
  lemma BackEdgesBreakAllCycles(nodes: set<Name>, out: OutEdges, order: seq<Name>)
    requires WellFormed(nodes, out) && IsOrderOf(order, nodes) && NoSelfLoops(GraphOf(nodes, out))
    ensures Acyclic(Cut(GraphOf(nodes, out), BackEdges(nodes, out, order)))
  {
    PositionKeys(order, nodes);
    KeptEdgesForward(nodes, out, order);
    ForwardEdgesAcyclic(Cut(GraphOf(nodes, out), BackEdges(nodes, out, order)), nodes, Positions(order));
  }

  lemma CutEdgeIsForward(nodes: set<Name>, out: OutEdges, order: seq<Name>, x: Name, y: Name)
    requires WellFormed(nodes, out) && IsOrderOf(order, nodes) && NoSelfLoops(GraphOf(nodes, out))
    requires y in Succ(Cut(GraphOf(nodes, out), BackEdges(nodes, out, order)), x)
    ensures x in Positions(order) && y in Positions(order)
    ensures x in nodes && y in nodes && Positions(order)[x] < Positions(order)[y]
  {
    PositionsInjective(order, nodes);
    CutSucc(GraphOf(nodes, out), BackEdges(nodes, out, order), x, y);
    KeptEdgeIsForward(nodes, out, order, x, y);
  }

  // ---------------------------------------------------------------- what the plan is worth

  function ListedEdges(list: seq<Listed>): set<Edge> {
    set l | l in list :: (l.u, l.v)
  }

  lemma ListedIsBack(list: seq<Listed>, out: OutEdges, back: set<Edge>)
    requires ListsExactly(list, out, back)
    ensures ListedEdges(list) == back
  {
  }

  lemma BackEdgesOfOrder(g: Graph, c: set<Name>, out: OutEdges, order: seq<Name>)
    requires IsOrderOf(order, c)
    requires forall u, v :: (u, v) in EdgesOf(c, out) <==> u in c && v in c && v in Succ(g, u)
    ensures AreBackEdges(g, c, Positions(order), BackEdges(c, out, order))
    ensures Injective(c, Positions(order))
  {
  }

  /** The list is the set of all back edges between members, as the graph sees them. */
  lemma PlanBackEdges(info: Table, sccs: seq<seq<Name>>, p: Plan)
    requires TarjanTheory.IsDecomposition(BuildGraph(info), sccs) && PlanOk(info, sccs, p)
    ensures AreBackEdges(BuildGraph(info), NodeSet(p.big), Positions(p.order), ListedEdges(p.backEdges))
    ensures Injective(NodeSet(p.big), Positions(p.order))
  {
    var c := NodeSet(p.big);
    var out := OutEdgesWithin(info, c);
    MembersKnown(info, sccs, p.big);
    ListedIsBack(p.backEdges, out, BackEdges(c, out, p.order));
    forall u, v
      ensures (u, v) in EdgesOf(c, out) <==> u in c && v in c && v in Succ(BuildGraph(info), u)
    {
      if u in c {
        WithinIsGraph(info, c, u, v);
      }
    }
    BackEdgesOfOrder(BuildGraph(info), c, out, p.order);
  }

  /** What a change of the listed edges does: every member is off every cycle of
      the whole graph, and the other components stay. */
  ghost predicate BreaksOnly(g: Graph, h: Graph, big: seq<Name>) {
    && (forall u :: u in big ==> OnNoCycle(h, u))
    && (forall u, v :: u !in big ==> (Mutual(h, u, v) <==> Mutual(g, u, v)))
  }

  /** Cutting the listed edges does so, and inverting them does. */
  lemma PlanBreaksCycle(info: Table, sccs: seq<seq<Name>>, p: Plan)
    requires TarjanTheory.IsDecomposition(BuildGraph(info), sccs) && PlanOk(info, sccs, p)
    ensures BreaksOnly(BuildGraph(info), Cut(BuildGraph(info), ListedEdges(p.backEdges)), p.big)
    ensures BreaksOnly(BuildGraph(info), Invert(BuildGraph(info), ListedEdges(p.backEdges)), p.big)
  {
    var g, c, pos, s := BuildGraph(info), NodeSet(p.big), Positions(p.order), ListedEdges(p.backEdges);
    GraphKeys(info);
    MembersKnown(info, sccs, p.big);
    PlanBackEdges(info, sccs, p);
    forall u | u in p.big
      ensures OnNoCycle(Cut(g, s), u) && OnNoCycle(Invert(g, s), u)
    {
      CutBreaks(g, c, pos, s, u);
      InvertBreaks(g, c, pos, s, u);
    }
    forall u, v | u !in p.big
      ensures Mutual(Cut(g, s), u, v) <==> Mutual(g, u, v)
      ensures Mutual(Invert(g, s), u, v) <==> Mutual(g, u, v)
    {
      CutKeepsOthers(g, c, s, u, v);
      InvertKeepsOthers(g, c, s, u, v);
    }
  }

  /** The list is never empty. */
  lemma PlanNeverEmpty(info: Table, sccs: seq<seq<Name>>, p: Plan)
    requires TarjanTheory.IsDecomposition(BuildGraph(info), sccs) && PlanOk(info, sccs, p)
    ensures p.backEdges != []
  {
    var g, c, pos, s := BuildGraph(info), NodeSet(p.big), Positions(p.order), ListedEdges(p.backEdges);
    GraphKeys(info);
    MembersKnown(info, sccs, p.big);
    PlanBackEdges(info, sccs, p);
    SomeBackEdge(g, c, pos, s, p.big[0], p.big[1]);
  }

  /** The reported cycle is the only multi-node component. */
  ghost predicate OnlyCycle(sccs: seq<seq<Name>>, big: seq<Name>) {
    forall c :: c in sccs && |c| > 1 ==> c == big
  }

  lemma DagExactly(g: Graph, h: Graph, sccs: seq<seq<Name>>, big: seq<Name>)
    requires TarjanTheory.IsDecomposition(g, sccs) && big in sccs
    requires Within(g, h) && NoSelfLoops(h) && BreaksOnly(g, h, big)
    ensures Acyclic(h) <==> OnlyCycle(sccs, big)
  {
    if c :| c in sccs && |c| > 1 && c != big {
      OtherCycleStays(g, h, sccs, big, c);
    } else {
      OnlyCycleBroken(g, h, sccs, big);
    }
  }

  lemma ChangesWithin(g: Graph, c: set<Name>, s: set<Edge>)
    requires IsComponent(g, c) && Inside(c, s) && NoSelfLoops(g) && forall e :: e in s ==> e.0 != e.1
    ensures Within(g, Cut(g, s)) && NoSelfLoops(Cut(g, s))
    ensures Within(g, Invert(g, s)) && NoSelfLoops(Invert(g, s))
  {
    CutWithin(g, s);
    InvertWithin(g, c, s);
    forall x, y | y in Succ(Cut(g, s), x)
      ensures x != y
    {
      CutSucc(g, s, x, y);
    }
    forall x, y | y in Succ(Invert(g, s), x)
      ensures x != y
    {
      InvertSucc(g, s, x, y);
    }
  }

  /** The whole module graph becomes a DAG, by cutting the listed edges or by
      inverting them, exactly when the reported cycle is the only one. */
  lemma PlanMakesDag(info: Table, sccs: seq<seq<Name>>, p: Plan)
    requires TarjanTheory.IsDecomposition(BuildGraph(info), sccs) && PlanOk(info, sccs, p)
    ensures Acyclic(Cut(BuildGraph(info), ListedEdges(p.backEdges))) <==> OnlyCycle(sccs, p.big)
    ensures Acyclic(Invert(BuildGraph(info), ListedEdges(p.backEdges))) <==> OnlyCycle(sccs, p.big)
  {
    var g, s := BuildGraph(info), ListedEdges(p.backEdges);
    GraphKeys(info);
    MembersKnown(info, sccs, p.big);
    PlanBackEdges(info, sccs, p);
    PlanBreaksCycle(info, sccs, p);
    ChangesWithin(g, NodeSet(p.big), s);
    DagExactly(g, Cut(g, s), sccs, p.big);
    DagExactly(g, Invert(g, s), sccs, p.big);
  }

  lemma InsideIsComponentEdges(info: Table, c: set<Name>, n: Name, s: set<Edge>)
    requires c <= BuildGraph(info).Keys && n in c
    ensures CutsAllInside(BuildGraph(info), c, n, s) <==> InsideEdges(OutEdgesWithin(info, c), n) <= s
  {
  }

  /** The cost listed for a member is exact among cuts of its own out-edges: its
      edges into the cycle must all go, and no evicting choice is fewer or lighter. */
  lemma EvictionCostIsMinimal(info: Table, sccs: seq<seq<Name>>, p: Plan, i: nat, s: set<Edge>)
    requires TarjanTheory.IsDecomposition(BuildGraph(info), sccs) && PlanOk(info, sccs, p)
    requires i < |p.evictions| && forall e :: e in s ==> e.0 == p.evictions[i].n
    ensures var ev, out := p.evictions[i], OutEdgesWithin(info, NodeSet(p.big));
            && (OnNoCycle(Cut(BuildGraph(info), s), ev.n) <==> InsideEdges(out, ev.n) <= s)
            && (OnNoCycle(Cut(BuildGraph(info), s), ev.n) ==> ev.edges <= |s| && ev.total <= Total(out, s))
  {
    var g, c, n := BuildGraph(info), NodeSet(p.big), p.evictions[i].n;
    var out := OutEdgesWithin(info, c);
    MembersKnown(info, sccs, p.big);
    EvictionExact(g, c, n, s);
    InsideIsComponentEdges(info, c, n, s);
    if InsideEdges(out, n) <= s {
      SubsetSize(InsideEdges(out, n), s);
      TotalSubset(out, InsideEdges(out, n), s);
    }
  }
}
