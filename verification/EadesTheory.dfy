/** The Eades-Lin-Smyth vertex order: what it promises and why.

    While the order is built, some vertices are already placed on its left,
    some on its right, and the `rest` will come in between. `pos` gives the
    final position of every placed vertex. */
module EadesTheory {
  import opened Basics
  import opened Digraph
  import opened EdgeWeights

  ghost predicate IsOrderOf(order: seq<Name>, nodes: set<Name>) {
    NoDup(order) && |order| == |nodes| && forall x :: x in order <==> x in nodes
  }

  /** What the heuristic demands of its callers: an entry for every node, and no
      edge that leaves the node set. */
  ghost predicate WellFormed(nodes: set<Name>, out: OutEdges) {
    nodes <= out.Keys && forall u, v :: u in nodes && v in out[u] ==> v in nodes
  }

  /** No edge of `n` leads into the rest. */
  predicate IsSink(out: OutEdges, rest: set<Name>, n: Name)
    requires n in out
  {
    forall v :: v in out[n].Keys ==> v !in rest
  }

  /** No edge from the rest leads to `n`. */
  predicate IsSource(nodes: set<Name>, out: OutEdges, rest: set<Name>, n: Name)
    requires nodes <= out.Keys
  {
    forall u :: u in nodes && n in out[u].Keys ==> u !in rest
  }

  /** Where each vertex stands in the order. */
  function Positions(order: seq<Name>): map<Name, nat>
    requires NoDup(order)
  {
    map i | 0 <= i < |order| :: order[i] := i
  }

  lemma PositionsAt(order: seq<Name>, i: nat)
    requires NoDup(order) && i < |order|
    ensures order[i] in Positions(order) && Positions(order)[order[i]] == i
  {
  }

  /** The edges that point backwards, with every vertex not in `pos` at `mid`. */
  ghost function Rank(pos: map<Name, nat>, mid: nat, x: Name): nat {
    if x in pos then pos[x] else mid
  }

  ghost function BackAt(edges: set<Edge>, pos: map<Name, nat>, mid: nat): set<Edge> {
    set e | e in edges && Rank(pos, mid, e.1) < Rank(pos, mid, e.0)
  }

  /** The back edges of a complete order. */
  ghost function BackEdges(nodes: set<Name>, out: OutEdges, order: seq<Name>): set<Edge>
    requires NoDup(order)
  {
    BackAt(EdgesOf(nodes, out), Positions(order), 0)
  }

  // ---------------------------------------------------------------- scores

  ghost function OutOf(edges: set<Edge>, rest: set<Name>, n: Name): set<Edge> {
    set e | e in edges && e.0 == n && e.1 in rest
  }

  ghost function Into(edges: set<Edge>, rest: set<Name>, n: Name): set<Edge> {
    set e | e in edges && e.1 == n && e.0 in rest
  }

  ghost function Score(out: OutEdges, edges: set<Edge>, rest: set<Name>, n: Name): int {
    Total(out, OutOf(edges, rest, n)) - Total(out, Into(edges, rest, n))
  }

  ghost function From(edges: set<Edge>, rest: set<Name>, some: set<Name>): set<Edge> {
    set e | e in edges && e.0 in some && e.1 in rest
  }

  ghost function To(edges: set<Edge>, rest: set<Name>, some: set<Name>): set<Edge> {
    set e | e in edges && e.1 in some && e.0 in rest
  }

  lemma FromToSplit(edges: set<Edge>, rest: set<Name>, some: set<Name>, n: Name)
    requires n in some
    ensures From(edges, rest, some) == OutOf(edges, rest, n) + From(edges, rest, some - {n})
    ensures To(edges, rest, some) == Into(edges, rest, n) + To(edges, rest, some - {n})
    ensures OutOf(edges, rest, n) !! From(edges, rest, some - {n})
    ensures Into(edges, rest, n) !! To(edges, rest, some - {n})
  {
  }

  /** With every score negative, the edges leaving `some` weigh less than those entering it. */
  lemma {:induction false} NegativeScores(out: OutEdges, edges: set<Edge>, rest: set<Name>, some: set<Name>)
    requires forall n :: n in some ==> Score(out, edges, rest, n) < 0
    ensures Total(out, From(edges, rest, some)) <= Total(out, To(edges, rest, some))
    ensures some != {} ==> Total(out, From(edges, rest, some)) < Total(out, To(edges, rest, some))
    decreases |some|
  {
    if some == {} {
      assert From(edges, rest, some) == {} == To(edges, rest, some);
    } else {
      var n :| n in some;
      NegativeScores(out, edges, rest, some - {n});
      FromToSplit(edges, rest, some, n);
      TotalUnion(out, OutOf(edges, rest, n), From(edges, rest, some - {n}));
      TotalUnion(out, Into(edges, rest, n), To(edges, rest, some - {n}));
      assert Score(out, edges, rest, n) < 0;
    }
  }

  /** The scores over the rest sum to zero, so the largest is not negative. */
  lemma BestScoreNonNegative(out: OutEdges, edges: set<Edge>, rest: set<Name>, pick: Name)
    requires pick in rest
    requires forall n :: n in rest ==> Score(out, edges, rest, n) <= Score(out, edges, rest, pick)
    ensures Score(out, edges, rest, pick) >= 0
  {
    assert From(edges, rest, rest) == To(edges, rest, rest);
    if Score(out, edges, rest, pick) < 0 {
      NegativeScores(out, edges, rest, rest);
    }
  }

  // ---------------------------------------------------------------- the invariant

  /** `side` occupies the positions from `base` on. */
  ghost predicate SideAt(side: seq<Name>, base: nat, pos: map<Name, nat>) {
    forall i :: 0 <= i < |side| ==> side[i] in pos && pos[side[i]] == base + i
  }

  ghost predicate Holds(side: seq<Name>, base: nat, p: nat, x: Name) {
    base <= p < base + |side| && side[p - base] == x
  }

  ghost predicate Covered(left: seq<Name>, right: seq<Name>, base: nat, pos: map<Name, nat>) {
    forall x {:trigger pos[x]} :: x in pos ==> Holds(left, 0, pos[x], x) || Holds(right, base, pos[x], x)
  }

  ghost predicate Placed(nodes: set<Name>, left: seq<Name>, right: seq<Name>, rest: set<Name>, pos: map<Name, nat>) {
    && rest <= nodes && pos.Keys == nodes - rest
    && |left| + |rest| + |right| == |nodes|
    && SideAt(left, 0, pos)
    && SideAt(right, |left| + |rest|, pos)
    && Covered(left, right, |left| + |rest|, pos)
  }

  /** The edges with an end that is already placed. */
  ghost function Decided(edges: set<Edge>, rest: set<Name>): set<Edge> {
    set e | e in edges && !(e.0 in rest && e.1 in rest)
  }

  /** The edges going backwards so far weigh at most half of those decided. */
  ghost predicate Halved(nodes: set<Name>, out: OutEdges, rest: set<Name>, pos: map<Name, nat>, mid: nat) {
    var edges := EdgesOf(nodes, out);
    && 2 * Total(out, BackAt(edges, pos, mid)) <= Total(out, Decided(edges, rest))
    && (Acyclic(GraphOf(nodes, out)) ==> BackAt(edges, pos, mid) == {})
  }

  lemma PlaceRight(nodes: set<Name>, left: seq<Name>, right: seq<Name>, rest: set<Name>, pos: map<Name, nat>, n: Name)
    requires Placed(nodes, left, right, rest, pos) && n in rest
    ensures Placed(nodes, left, [n] + right, rest - {n}, pos[n := |left| + |rest| - 1])
  {
  }

  lemma PlaceLeft(nodes: set<Name>, left: seq<Name>, right: seq<Name>, rest: set<Name>, pos: map<Name, nat>, n: Name)
    requires Placed(nodes, left, right, rest, pos) && n in rest
    ensures Placed(nodes, left + [n], right, rest - {n}, pos[n := |left|])
  {
  }

  lemma DecidedGrows(out: OutEdges, edges: set<Edge>, rest: set<Name>, n: Name)
    ensures Total(out, Decided(edges, rest)) <= Total(out, Decided(edges, rest - {n}))
  {
    TotalSubset(out, Decided(edges, rest), Decided(edges, rest - {n}));
  }

  /** Placing a sink on the right, or a source on the left, turns no edge back. */
  lemma SinkKeepsHalved(nodes: set<Name>, out: OutEdges, left: seq<Name>, right: seq<Name>, rest: set<Name>, pos: map<Name, nat>, n: Name)
    requires WellFormed(nodes, out) && Placed(nodes, left, right, rest, pos) && n in rest
    requires Halved(nodes, out, rest, pos, |left|)
    requires IsSink(out, rest, n)
    ensures Halved(nodes, out, rest - {n}, pos[n := |left| + |rest| - 1], |left|)
  {
    var edges, pos' := EdgesOf(nodes, out), pos[n := |left| + |rest| - 1];
    forall e | e in edges
      ensures e in BackAt(edges, pos', |left|) <==> e in BackAt(edges, pos, |left|)
    {
      OthersInRest(rest, n, e.0);
    }
    assert BackAt(edges, pos', |left|) == BackAt(edges, pos, |left|);
    DecidedGrows(out, edges, rest, n);
  }

  lemma OthersInRest(rest: set<Name>, n: Name, u: Name)
    requires n in rest
    ensures |rest| >= 1
    ensures u in rest && u != n ==> |rest| >= 2
  {
    if u in rest && u != n {
      SubsetSize({u, n}, rest);
    }
  }

  lemma SourceKeepsHalved(nodes: set<Name>, out: OutEdges, left: seq<Name>, right: seq<Name>, rest: set<Name>, pos: map<Name, nat>, n: Name)
    requires WellFormed(nodes, out) && Placed(nodes, left, right, rest, pos) && n in rest
    requires Halved(nodes, out, rest, pos, |left|)
    requires IsSource(nodes, out, rest, n)
    ensures Halved(nodes, out, rest - {n}, pos[n := |left|], |left| + 1)
  {
    var edges, pos' := EdgesOf(nodes, out), pos[n := |left|];
    forall e | e in edges
      ensures e in BackAt(edges, pos', |left| + 1) <==> e in BackAt(edges, pos, |left|)
    {
      OthersInRest(rest, n, e.0);
      OthersInRest(rest, n, e.1);
    }
    assert BackAt(edges, pos', |left| + 1) == BackAt(edges, pos, |left|);
    DecidedGrows(out, edges, rest, n);
  }

  /** Placing any vertex on the left turns back exactly its edges from the rest. */
  lemma PickTurnsBack(nodes: set<Name>, out: OutEdges, left: seq<Name>, right: seq<Name>, rest: set<Name>, pos: map<Name, nat>, n: Name)
    requires WellFormed(nodes, out) && Placed(nodes, left, right, rest, pos) && n in rest
    ensures var edges := EdgesOf(nodes, out);
            BackAt(edges, pos[n := |left|], |left| + 1)
            == BackAt(edges, pos, |left|) + Into(edges, rest - {n}, n)
  {
    var edges, pos' := EdgesOf(nodes, out), pos[n := |left|];
    forall e | e in edges
      ensures e in BackAt(edges, pos', |left| + 1) <==> e in BackAt(edges, pos, |left|) || e in Into(edges, rest - {n}, n)
    {
      OthersInRest(rest, n, e.0);
      OthersInRest(rest, n, e.1);
    }
  }

  lemma PickWeighs(out: OutEdges, edges: set<Edge>, rest: set<Name>, n: Name)
    requires n in rest && Score(out, edges, rest, n) >= 0
    ensures 2 * Total(out, Into(edges, rest - {n}, n)) + Total(out, Decided(edges, rest))
            <= Total(out, Decided(edges, rest - {n}))
  {
    var others := rest - {n};
    var self := set e | e in edges && e.0 == n && e.1 == n;
    var ins, outs := Into(edges, others, n), OutOf(edges, others, n);
    assert Into(edges, rest, n) == ins + self;
    assert OutOf(edges, rest, n) == outs + self;
    TotalUnion(out, ins, self);
    TotalUnion(out, outs, self);
    var settled := Decided(edges, rest);
    TotalUnion(out, settled, ins);
    TotalUnion(out, settled + ins, outs);
    TotalSubset(out, settled + ins + outs, Decided(edges, others));
  }

  lemma PickKeepsHalved(nodes: set<Name>, out: OutEdges, left: seq<Name>, right: seq<Name>, rest: set<Name>, pos: map<Name, nat>, n: Name)
    requires WellFormed(nodes, out) && Placed(nodes, left, right, rest, pos) && n in rest
    requires Halved(nodes, out, rest, pos, |left|)
    requires !Acyclic(GraphOf(nodes, out))
    requires Score(out, EdgesOf(nodes, out), rest, n) >= 0
    ensures Halved(nodes, out, rest - {n}, pos[n := |left|], |left| + 1)
  {
    var edges := EdgesOf(nodes, out);
    PickTurnsBack(nodes, out, left, right, rest, pos, n);
    PickWeighs(out, edges, rest, n);
    var back, ins := BackAt(edges, pos, |left|), Into(edges, rest - {n}, n);
    assert back !! ins;
    TotalUnion(out, back, ins);
  }

  /** Nothing to peel means a cycle. */
  lemma NoSinkLeft(nodes: set<Name>, out: OutEdges, rest: set<Name>)
    requires WellFormed(nodes, out) && rest <= nodes && rest != {}
    requires forall n :: n in rest ==> !IsSink(out, rest, n)
    ensures !Acyclic(GraphOf(nodes, out))
  {
    var g := GraphOf(nodes, out);
    forall n | n in rest
      ensures HasSuccIn(g, n, rest)
    {
      assert !IsSink(out, rest, n);
      assert Succ(g, n) == out[n].Keys;
    }
    NoSinkGivesCycle(g, rest);
  }

  lemma AllPlacedAt(nodes: set<Name>, left: seq<Name>, right: seq<Name>, pos: map<Name, nat>, x: Name)
    requires Placed(nodes, left, right, {}, pos) && x in nodes
    ensures x in pos && pos[x] < |left + right| && (left + right)[pos[x]] == x
  {
  }

  lemma AllPlacedOrder(nodes: set<Name>, left: seq<Name>, right: seq<Name>, pos: map<Name, nat>)
    requires Placed(nodes, left, right, {}, pos)
    ensures SideAt(left + right, 0, pos)
    ensures IsOrderOf(left + right, nodes)
  {
    var order := left + right;
    forall i | 0 <= i < |order|
      ensures order[i] in pos && pos[order[i]] == i
    {
      if i >= |left| {
        assert order[i] == right[i - |left|];
      }
    }
    forall x | x in nodes
      ensures x in order
    {
      AllPlacedAt(nodes, left, right, pos, x);
    }
  }

  lemma AllPlacedPositions(nodes: set<Name>, left: seq<Name>, right: seq<Name>, pos: map<Name, nat>)
    requires Placed(nodes, left, right, {}, pos) && NoDup(left + right)
    requires forall x :: x in left + right <==> x in nodes
    ensures Positions(left + right) == pos
  {
    var order := left + right;
    assert Positions(order).Keys == pos.Keys;
    forall x | x in pos
      ensures Positions(order)[x] == pos[x]
    {
      AllPlacedAt(nodes, left, right, pos, x);
      PositionsAt(order, pos[x]);
    }
  }

  lemma BackEdgesPlaced(nodes: set<Name>, out: OutEdges, order: seq<Name>, pos: map<Name, nat>, mid: nat)
    requires WellFormed(nodes, out) && nodes <= pos.Keys && NoDup(order) && Positions(order) == pos
    ensures BackEdges(nodes, out, order) == BackAt(EdgesOf(nodes, out), pos, mid)
  {
  }

  lemma NothingUndecided(edges: set<Edge>)
    ensures Decided(edges, {}) == edges
  {
  }

  /** When everything is placed, the two sides joined are the order. */
  lemma AllPlaced(nodes: set<Name>, out: OutEdges, left: seq<Name>, right: seq<Name>, pos: map<Name, nat>)
    requires WellFormed(nodes, out) && Placed(nodes, left, right, {}, pos) && Halved(nodes, out, {}, pos, |left|)
    ensures IsOrderOf(left + right, nodes)
    ensures 2 * Total(out, BackEdges(nodes, out, left + right)) <= Total(out, EdgesOf(nodes, out))
    ensures Acyclic(GraphOf(nodes, out)) ==> BackEdges(nodes, out, left + right) == {}
  {
    var order := left + right;
    AllPlacedOrder(nodes, left, right, pos);
    AllPlacedPositions(nodes, left, right, pos);
    BackEdgesPlaced(nodes, out, order, pos, |left|);
    NothingUndecided(EdgesOf(nodes, out));
  }
}
