/** The cycle part of the report: from the module table to the components, the
    back edges of the largest cycle and the cost of evicting each member. */
module Planner {
  import opened Basics
  import opened Digraph
  import opened EdgeWeights
  import opened EadesTheory
  import opened Eades

  /** What the analysis knows about one module; `fully` stands for a facade
      class of "fully". */
  datatype Info = Info(loc: nat, fully: bool, outbound: set<Name>, refCounts: map<Name, nat>)

  type Table = map<Name, Info>

  /** One line of the report: an edge and how many references it stands for. */
  datatype Listed = Listed(w: nat, u: Name, v: Name)

  datatype Eviction = Eviction(edges: nat, total: nat, n: Name)

  datatype Plan = Plan(
    big: seq<Name>,
    order: seq<Name>,
    backEdges: seq<Listed>,
    totalBack: nat,
    evictions: seq<Eviction>)

  function BuildGraph(info: Table): Graph {
    map n | n in info && !info[n].fully ::
      set d | d in info[n].outbound && d in info && !info[d].fully && d != n
  }

  /** The edges between members of a cycle, a missing count standing for 1. */
  function OutEdgesWithin(info: Table, sub: set<Name>): OutEdges
    requires sub <= info.Keys
  {
    map n | n in sub ::
      map d | d in info[n].outbound && d in sub && d != n ::
        (if d in info[n].refCounts then info[n].refCounts[d] else 1)
  }

  function SumLoc(info: Table, c: seq<Name>): nat {
    if c == [] then 0 else (if c[0] in info then info[c[0]].loc else 0) + SumLoc(info, c[1..])
  }

  lemma GraphKeys(info: Table)
    ensures Vertices(BuildGraph(info)) == BuildGraph(info).Keys <= info.Keys
    ensures NoSelfLoops(BuildGraph(info))
  {
  }

  /** Inside a component the weighted edges are exactly those of the graph. */
  lemma WithinIsGraph(info: Table, sub: set<Name>, u: Name, v: Name)
    requires sub <= BuildGraph(info).Keys && u in sub
    ensures (u, v) in EdgesOf(sub, OutEdgesWithin(info, sub)) <==> v in sub && v in Succ(BuildGraph(info), u)
  {
    var out := OutEdgesWithin(info, sub);
    assert v in out[u].Keys <==> v in info[u].outbound && v in sub && v != u;
  }

  lemma WithinWellFormed(info: Table, sub: set<Name>)
    requires sub <= info.Keys
    ensures WellFormed(sub, OutEdgesWithin(info, sub))
  {
  }

  // ---------------------------------------------------------------- the listed back edges

  /** The list names every back edge of the order once, with its weight. */
  ghost predicate ListsExactly(list: seq<Listed>, out: OutEdges, back: set<Edge>) {
    && (forall i :: 0 <= i < |list| ==> (list[i].u, list[i].v) in back && list[i].w == Weight(out, (list[i].u, list[i].v)))
    && (forall i, j :: 0 <= i < j < |list| ==> (list[i].u, list[i].v) != (list[j].u, list[j].v))
    && (forall e :: e in back ==> exists i :: 0 <= i < |list| && (list[i].u, list[i].v) == e)
  }

  lemma ListGrows(list: seq<Listed>, out: OutEdges, back: set<Edge>, e: Edge)
    requires ListsExactly(list, out, back) && e !in back
    ensures ListsExactly(list + [Listed(Weight(out, e), e.0, e.1)], out, back + {e})
  {
    var longer := list + [Listed(Weight(out, e), e.0, e.1)];
    forall f | f in back + {e}
      ensures exists i :: 0 <= i < |longer| && (longer[i].u, longer[i].v) == f
    {
      if f == e {
        assert (longer[|list|].u, longer[|list|].v) == f;
      } else {
        var i :| 0 <= i < |list| && (list[i].u, list[i].v) == f;
        assert longer[i] == list[i];
      }
    }
  }

  /** The back edges listed so far: those of the finished sources, and of `u`
      those whose target is not in `todo`. */
  ghost function SeenBack(back: set<Edge>, done: set<Name>, u: Name, todo: set<Name>): set<Edge> {
    set e | e in back && (e.0 in done || (e.0 == u && e.1 !in todo))
  }

  lemma SeenGrows(back: set<Edge>, done: set<Name>, u: Name, todo: set<Name>, v: Name)
    requires v in todo && u !in done
    ensures (u, v) in back ==> SeenBack(back, done, u, todo - {v}) == SeenBack(back, done, u, todo) + {(u, v)}
    ensures (u, v) !in back ==> SeenBack(back, done, u, todo - {v}) == SeenBack(back, done, u, todo)
    ensures (u, v) !in SeenBack(back, done, u, todo)
  {
  }

  lemma PositionKeys(order: seq<Name>, nodes: set<Name>)
    requires IsOrderOf(order, nodes)
    ensures Positions(order).Keys == nodes
  {
  }

  ghost function FromDone(back: set<Edge>, done: set<Name>): set<Edge> {
    set e | e in back && e.0 in done
  }

  lemma SeenStartsAndEnds(nodes: set<Name>, out: OutEdges, order: seq<Name>, done: set<Name>, u: Name)
    requires WellFormed(nodes, out) && NoDup(order) && u in nodes
    ensures var back := BackEdges(nodes, out, order);
            && SeenBack(back, done, u, out[u].Keys) == FromDone(back, done)
            && SeenBack(back, done, u, {}) == FromDone(back, done + {u})
  {
  }

  lemma NextSource(big: seq<Name>, i: nat)
    requires NoDup(big) && i < |big|
    ensures big[i] !in NodeSet(big[..i]) && NodeSet(big[..i + 1]) == NodeSet(big[..i]) + {big[i]}
  {
  }

  /** The list and its weight, for the part of the back edges in `seen`. */
  ghost predicate Listing(list: seq<Listed>, total: nat, out: OutEdges, seen: set<Edge>) {
    ListsExactly(list, out, seen) && total == Total(out, seen)
  }

  lemma ListStep(list: seq<Listed>, total: nat, out: OutEdges, back: set<Edge>, done: set<Name>, u: Name, todo: set<Name>, v: Name)
    requires Listing(list, total, out, SeenBack(back, done, u, todo)) && v in todo && u !in done
    ensures (u, v) in back ==>
              Listing(list + [Listed(Weight(out, (u, v)), u, v)], total + Weight(out, (u, v)), out, SeenBack(back, done, u, todo - {v}))
    ensures (u, v) !in back ==> Listing(list, total, out, SeenBack(back, done, u, todo - {v}))
  {
    var seen := SeenBack(back, done, u, todo);
    SeenGrows(back, done, u, todo, v);
    if (u, v) in back {
      ListGrows(list, out, seen, (u, v));
      TotalAdd(out, seen, (u, v));
    }
  }

  lemma BackEdgeTest(nodes: set<Name>, out: OutEdges, order: seq<Name>, u: Name, v: Name)
    requires WellFormed(nodes, out) && IsOrderOf(order, nodes) && u in nodes && v in out[u].Keys
    ensures u in Positions(order) && v in Positions(order)
    ensures (u, v) in BackEdges(nodes, out, order) <==> Positions(order)[v] < Positions(order)[u]
    ensures Weight(out, (u, v)) == out[u][v]
  {
    PositionKeys(order, nodes);
    assert (u, v) in EdgesOf(nodes, out);
  }

  /** The out-edges of one source, appended to the list. */
  method ListFrom(nodes: set<Name>, out: OutEdges, order: seq<Name>, u: Name, ghost done: set<Name>, list0: seq<Listed>, total0: nat)
    returns (list: seq<Listed>, total: nat)
    requires WellFormed(nodes, out) && IsOrderOf(order, nodes) && u in nodes && u !in done
    requires Listing(list0, total0, out, SeenBack(BackEdges(nodes, out, order), done, u, out[u].Keys))
    ensures Listing(list, total, out, SeenBack(BackEdges(nodes, out, order), done, u, {}))
  {
    list, total := list0, total0;
    var pos := Positions(order);
    ghost var back := BackEdges(nodes, out, order);
    var todo := out[u].Keys;
    while todo != {}
      invariant todo <= out[u].Keys
      invariant Listing(list, total, out, SeenBack(back, done, u, todo))
      decreases todo
    {
      var v :| v in todo;
      BackEdgeTest(nodes, out, order, u, v);
      ListStep(list, total, out, back, done, u, todo, v);
      if pos[v] < pos[u] {
        list := list + [Listed(out[u][v], u, v)];
        total := total + out[u][v];
      }
      todo := todo - {v};
    }
  }

  /** The back edges of an order and their total weight. */
  method ListBackEdges(big: seq<Name>, out: OutEdges, order: seq<Name>) returns (list: seq<Listed>, total: nat)
    requires WellFormed(NodeSet(big), out) && IsOrderOf(order, NodeSet(big)) && NoDup(big)
    ensures ListsExactly(list, out, BackEdges(NodeSet(big), out, order))
    ensures total == Total(out, BackEdges(NodeSet(big), out, order))
  {
    var nodes := NodeSet(big);
    ghost var back := BackEdges(nodes, out, order);
    list, total := [], 0;
    assert FromDone(back, NodeSet(big[..0])) == {};
    for i := 0 to |big|
      invariant Listing(list, total, out, FromDone(back, NodeSet(big[..i])))
    {
      ghost var done := NodeSet(big[..i]);
      NextSource(big, i);
      SeenStartsAndEnds(nodes, out, order, done, big[i]);
      list, total := ListFrom(nodes, out, order, big[i], done, list, total);
    }
    assert big[..|big|] == big;
    assert FromDone(back, nodes) == back;
  }

  // ---------------------------------------------------------------- eviction costs

  /** The edges of `n` that stay inside the cycle. */
  ghost function InsideEdges(out: OutEdges, n: Name): set<Edge> {
    if n in out then set v | v in out[n].Keys :: (n, v) else {}
  }

  method CostOf(out: OutEdges, n: Name) returns (e: Eviction)
    requires n in out
    ensures e == Eviction(|InsideEdges(out, n)|, Total(out, InsideEdges(out, n)), n)
  {
    var count: nat, total: nat := 0, 0;
    var todo := out[n].Keys;
    ghost var seen: set<Edge> := {};
    while todo != {}
      invariant todo <= out[n].Keys && count == |seen| && total == Total(out, seen)
      invariant seen == set v | v in out[n].Keys && v !in todo :: (n, v)
      decreases todo
    {
      var v :| v in todo;
      TotalAdd(out, seen, (n, v));
      count, total := count + 1, total + out[n][v];
      seen := seen + {(n, v)};
      todo := todo - {v};
    }
    assert seen == InsideEdges(out, n);
    e := Eviction(count, total, n);
  }

  method Costs(big: seq<Name>, out: OutEdges) returns (evict: seq<Eviction>)
    requires forall n :: n in big ==> n in out
    ensures |evict| == |big|
    ensures forall i :: 0 <= i < |big| ==>
              evict[i] == Eviction(|InsideEdges(out, big[i])|, Total(out, InsideEdges(out, big[i])), big[i])
  {
    evict := [];
    for i := 0 to |big|
      invariant |evict| == i
      invariant forall j :: 0 <= j < i ==>
                  evict[j] == Eviction(|InsideEdges(out, big[j])|, Total(out, InsideEdges(out, big[j])), big[j])
    {
      var e := CostOf(out, big[i]);
      evict := evict + [e];
    }
  }
}
