/** The greedy vertex order for a feedback arc set, with its shrinking `rest`
    and growing `left` and `right`.

    Sets are walked in an arbitrary order and equal scores are told apart
    arbitrarily, as in the program. */
module Eades {
  import opened Digraph
  import opened EdgeWeights
  import opened EadesTheory
  import opened EadesRuns

  function NodeSet(nodes: seq<Name>): set<Name> {
    set n | n in nodes
  }

  /** How far the order has got: the positions given and the steps taken. */
  datatype Trace = Trace(pos: map<Name, nat>, steps: seq<Step>)

  ghost predicate Balanced(
    nodes: set<Name>, out: OutEdges, left: seq<Name>, right: seq<Name>, rest: set<Name>, pos: map<Name, nat>)
  {
    WellFormed(nodes, out) && Placed(nodes, left, right, rest, pos) && Halved(nodes, out, rest, pos, |left|)
  }

  ghost predicate Good(nodes: set<Name>, out: OutEdges, left: seq<Name>, right: seq<Name>, rest: set<Name>, t: Trace) {
    Balanced(nodes, out, left, right, rest, t.pos) && RunTo(nodes, out, t.steps, left, right, rest)
  }

  lemma NothingPlaced(nodes: set<Name>, out: OutEdges)
    requires WellFormed(nodes, out)
    ensures Good(nodes, out, [], [], nodes, Trace(map[], []))
  {
  }

  lemma SinkTest(nodes: set<Name>, out: OutEdges, rest: set<Name>, n: Name)
    requires WellFormed(nodes, out) && rest <= nodes && n in rest
    ensures IsSink(out, rest, n) <==> !LeadsInto(EdgesOf(nodes, out), n, rest)
  {
    if !IsSink(out, rest, n) {
      var v :| v in out[n].Keys && v in rest;
      assert (n, v) in EdgesOf(nodes, out);
    }
  }

  lemma SourceTest(nodes: set<Name>, out: OutEdges, rest: set<Name>, n: Name)
    requires WellFormed(nodes, out) && rest <= nodes && n in rest
    ensures IsSource(nodes, out, rest, n) <==> !IsLedTo(EdgesOf(nodes, out), n, rest)
  {
    if !IsSource(nodes, out, rest, n) {
      var u :| u in nodes && n in out[u].Keys && u in rest;
      assert (u, n) in EdgesOf(nodes, out);
    }
  }

  /** One vertex more on the right. */
  function OnRight(t: Trace, n: Name, p: nat): Trace {
    Trace(t.pos[n := p], t.steps + [Step(n, AsSink)])
  }

  /** One vertex more on the left. */
  function OnLeft(t: Trace, n: Name, p: nat, kind: Kind): Trace {
    Trace(t.pos[n := p], t.steps + [Step(n, kind)])
  }

  lemma SinkStep(nodes: set<Name>, out: OutEdges, left: seq<Name>, right: seq<Name>, rest: set<Name>, t: Trace, n: Name)
    requires Good(nodes, out, left, right, rest, t) && n in rest && IsSink(out, rest, n)
    ensures |left| + |rest| >= 1
    ensures Good(nodes, out, left, [n] + right, rest - {n}, OnRight(t, n, |left| + |rest| - 1))
  {
    PlaceRight(nodes, left, right, rest, t.pos, n);
    SinkKeepsHalved(nodes, out, left, right, rest, t.pos, n);
    SinkTest(nodes, out, rest, n);
    RunGrows(nodes, out, t.steps, left, right, rest, Step(n, AsSink));
  }

  lemma SourceStep(nodes: set<Name>, out: OutEdges, left: seq<Name>, right: seq<Name>, rest: set<Name>, t: Trace, n: Name)
    requires Good(nodes, out, left, right, rest, t) && n in rest && IsSource(nodes, out, rest, n)
    ensures Good(nodes, out, left + [n], right, rest - {n}, OnLeft(t, n, |left|, AsSource))
  {
    PlaceLeft(nodes, left, right, rest, t.pos, n);
    SourceKeepsHalved(nodes, out, left, right, rest, t.pos, n);
    assert |left + [n]| == |left| + 1;
    SourceTest(nodes, out, rest, n);
    RunGrows(nodes, out, t.steps, left, right, rest, Step(n, AsSource));
  }

  ghost predicate Best(nodes: set<Name>, out: OutEdges, rest: set<Name>, n: Name) {
    n in rest
    && forall x :: x in rest ==> Score(out, EdgesOf(nodes, out), rest, x) <= Score(out, EdgesOf(nodes, out), rest, n)
  }

  lemma PickBalanced(
    nodes: set<Name>, out: OutEdges, left: seq<Name>, right: seq<Name>, rest: set<Name>, pos: map<Name, nat>, n: Name)
    requires Balanced(nodes, out, left, right, rest, pos) && Best(nodes, out, rest, n) && AllPeeled(nodes, out, rest)
    ensures Balanced(nodes, out, left + [n], right, rest - {n}, pos[n := |left|])
  {
    PlaceLeft(nodes, left, right, rest, pos, n);
    NoSinkLeft(nodes, out, rest);
    BestScoreNonNegative(out, EdgesOf(nodes, out), rest, n);
    PickKeepsHalved(nodes, out, left, right, rest, pos, n);
    assert |left + [n]| == |left| + 1;
  }

  lemma PickAllowed(nodes: set<Name>, out: OutEdges, rest: set<Name>, n: Name)
    requires WellFormed(nodes, out) && rest <= nodes && Best(nodes, out, rest, n) && AllPeeled(nodes, out, rest)
    ensures StepOk(out, EdgesOf(nodes, out), rest, Step(n, AsPick))
  {
    PeeledIsStuck(nodes, out, rest);
  }

  /** With nothing left to peel a vertex of the best score may be picked. */
  lemma PickStep(nodes: set<Name>, out: OutEdges, left: seq<Name>, right: seq<Name>, rest: set<Name>, t: Trace, n: Name)
    requires Good(nodes, out, left, right, rest, t) && AllPeeled(nodes, out, rest) && Best(nodes, out, rest, n)
    ensures Good(nodes, out, left + [n], right, rest - {n}, OnLeft(t, n, |left|, AsPick))
  {
    PickBalanced(nodes, out, left, right, rest, t.pos, n);
    PickAllowed(nodes, out, rest, n);
    RunGrows(nodes, out, t.steps, left, right, rest, Step(n, AsPick));
  }

  /** No sink and no source is left. */
  ghost predicate AllPeeled(nodes: set<Name>, out: OutEdges, rest: set<Name>)
    requires WellFormed(nodes, out) && rest <= nodes
  {
    && (forall n :: n in rest ==> !IsSink(out, rest, n))
    && (forall n :: n in rest ==> !IsSource(nodes, out, rest, n))
  }

  lemma PeeledIsStuck(nodes: set<Name>, out: OutEdges, rest: set<Name>)
    requires WellFormed(nodes, out) && rest <= nodes && AllPeeled(nodes, out, rest)
    ensures Stuck(EdgesOf(nodes, out), rest)
  {
    forall n | n in rest
      ensures LeadsInto(EdgesOf(nodes, out), n, rest) && IsLedTo(EdgesOf(nodes, out), n, rest)
    {
      SinkTest(nodes, out, rest, n);
      SourceTest(nodes, out, rest, n);
    }
  }

  /** One pass over a snapshot of the rest, moving sinks to the right. */
  method PeelSinks(nodes: set<Name>, out: OutEdges, left: seq<Name>, right0: seq<Name>, rest0: set<Name>, ghost trace0: Trace)
    returns (right: seq<Name>, rest: set<Name>, ghost trace: Trace)
    requires Good(nodes, out, left, right0, rest0, trace0)
    ensures Good(nodes, out, left, right, rest, trace)
    ensures rest <= rest0
    ensures rest == rest0 ==> forall n :: n in rest ==> !IsSink(out, rest, n)
  {
    right, rest, trace := right0, rest0, trace0;
    var todo := rest0;
    while todo != {}
      invariant todo <= rest <= rest0
      invariant Good(nodes, out, left, right, rest, trace)
      invariant rest == rest0 ==> forall n :: n in rest && n !in todo ==> !IsSink(out, rest, n)
      decreases todo
    {
      var n :| n in todo;
      if IsSink(out, rest, n) {
        SinkStep(nodes, out, left, right, rest, trace, n);
        trace := OnRight(trace, n, |left| + |rest| - 1);
        right := [n] + right;
        rest := rest - {n};
      }
      todo := todo - {n};
    }
  }

  /** One pass over a snapshot of the rest, moving sources to the left. */
  method PeelSources(nodes: set<Name>, out: OutEdges, left0: seq<Name>, right: seq<Name>, rest0: set<Name>, ghost trace0: Trace)
    returns (left: seq<Name>, rest: set<Name>, ghost trace: Trace)
    requires Good(nodes, out, left0, right, rest0, trace0)
    ensures Good(nodes, out, left, right, rest, trace)
    ensures rest <= rest0
    ensures rest == rest0 ==> forall n :: n in rest ==> !IsSource(nodes, out, rest, n)
  {
    left, rest, trace := left0, rest0, trace0;
    var todo := rest0;
    while todo != {}
      invariant todo <= rest <= rest0
      invariant Good(nodes, out, left, right, rest, trace)
      invariant rest == rest0 ==> forall n :: n in rest && n !in todo ==> !IsSource(nodes, out, rest, n)
      decreases todo
    {
      var n :| n in todo;
      if IsSource(nodes, out, rest, n) {
        SourceStep(nodes, out, left, right, rest, trace, n);
        trace := OnLeft(trace, n, |left|, AsSource);
        left := left + [n];
        rest := rest - {n};
      }
      todo := todo - {n};
    }
  }

  /** One round of the inner loop: sinks, then sources. */
  method PeelRound(nodes: set<Name>, out: OutEdges, left0: seq<Name>, right0: seq<Name>, rest0: set<Name>, ghost trace0: Trace)
    returns (left: seq<Name>, right: seq<Name>, rest: set<Name>, ghost trace: Trace)
    requires Good(nodes, out, left0, right0, rest0, trace0)
    ensures Good(nodes, out, left, right, rest, trace)
    ensures rest <= rest0
    ensures rest == rest0 ==> AllPeeled(nodes, out, rest)
  {
    right, rest, trace := PeelSinks(nodes, out, left0, right0, rest0, trace0);
    left, rest, trace := PeelSources(nodes, out, left0, right, rest, trace);
  }

  /** The inner loop: peel until a round changes nothing. */
  method Peel(nodes: set<Name>, out: OutEdges, left0: seq<Name>, right0: seq<Name>, rest0: set<Name>, ghost trace0: Trace)
    returns (left: seq<Name>, right: seq<Name>, rest: set<Name>, ghost trace: Trace)
    requires Good(nodes, out, left0, right0, rest0, trace0)
    ensures Good(nodes, out, left, right, rest, trace)
    ensures rest <= rest0 && AllPeeled(nodes, out, rest)
  {
    left, right, rest, trace := left0, right0, rest0, trace0;
    var changed := true;
    while changed
      invariant Good(nodes, out, left, right, rest, trace)
      invariant rest <= rest0
      invariant !changed ==> AllPeeled(nodes, out, rest)
      decreases rest, changed
    {
      var before := rest;
      left, right, rest, trace := PeelRound(nodes, out, left, right, rest, trace);
      changed := rest != before;
    }
  }

  /** The weight out of `n` minus the weight into it, within `rest`. */
  method ScoreOf(nodes: set<Name>, out: OutEdges, rest: set<Name>, n: Name) returns (s: int)
    requires WellFormed(nodes, out) && rest <= nodes && n in rest
    ensures s == Score(out, EdgesOf(nodes, out), rest, n)
  {
    ghost var edges := EdgesOf(nodes, out);
    var o: int, i: int := 0, 0;
    var todo := out[n].Keys;
    ghost var seen: set<Edge> := {};
    while todo != {}
      invariant todo <= out[n].Keys && o == Total(out, seen)
      invariant seen == set v | v in out[n].Keys && v !in todo && v in rest :: (n, v)
      decreases todo
    {
      var v :| v in todo;
      if v in rest {
        TotalAdd(out, seen, (n, v));
        o := o + out[n][v];
        seen := seen + {(n, v)};
      }
      todo := todo - {v};
    }
    assert seen == OutOf(edges, rest, n);
    todo, seen := rest, {};
    while todo != {}
      invariant todo <= rest && i == Total(out, seen)
      invariant seen == set u | u in rest && u !in todo && n in out[u].Keys :: (u, n)
      decreases todo
    {
      var u :| u in todo;
      if n in out[u].Keys {
        TotalAdd(out, seen, (u, n));
        i := i + out[u][n];
        seen := seen + {(u, n)};
      }
      todo := todo - {u};
    }
    assert seen == Into(edges, rest, n);
    s := o - i;
  }

  /** A vertex of the rest that no other one outscores. */
  method Pick(nodes: set<Name>, out: OutEdges, rest: set<Name>) returns (pick: Name)
    requires WellFormed(nodes, out) && rest <= nodes && rest != {}
    ensures Best(nodes, out, rest, pick)
  {
    pick :| pick in rest;
    var best := ScoreOf(nodes, out, rest, pick);
    var todo := rest - {pick};
    while todo != {}
      invariant todo <= rest && pick in rest && best == Score(out, EdgesOf(nodes, out), rest, pick)
      invariant forall n :: n in rest && n !in todo ==> Score(out, EdgesOf(nodes, out), rest, n) <= best
      decreases todo
    {
      var n :| n in todo;
      var s := ScoreOf(nodes, out, rest, n);
      if s > best {
        pick, best := n, s;
      }
      todo := todo - {n};
    }
  }

  /** With nothing left to peel: move the vertex of the best score to the left. */
  method PickLeft(nodes: set<Name>, out: OutEdges, left0: seq<Name>, right: seq<Name>, rest0: set<Name>, ghost trace0: Trace)
    returns (left: seq<Name>, rest: set<Name>, ghost trace: Trace)
    requires Good(nodes, out, left0, right, rest0, trace0) && rest0 != {} && AllPeeled(nodes, out, rest0)
    ensures Good(nodes, out, left, right, rest, trace)
    ensures rest < rest0
  {
    var pick := Pick(nodes, out, rest0);
    PickStep(nodes, out, left0, right, rest0, trace0, pick);
    trace := OnLeft(trace0, pick, |left0|, AsPick);
    left := left0 + [pick];
    rest := rest0 - {pick};
  }

  lemma RunIsOrder(nodes: set<Name>, out: OutEdges, left: seq<Name>, right: seq<Name>, t: Trace)
    requires RunTo(nodes, out, t.steps, left, right, {}) && Gone(t.steps) <= nodes
    ensures IsGreedyOrder(nodes, out, left + right)
  {
    assert forall x :: x in nodes ==> x !in nodes - Gone(t.steps);
    assert Built(nodes, out, t.steps, left + right);
  }

  method EadesOrder(nodes: seq<Name>, out: OutEdges) returns (order: seq<Name>)
    requires WellFormed(NodeSet(nodes), out)
    ensures IsOrderOf(order, NodeSet(nodes)) && IsGreedyOrder(NodeSet(nodes), out, order)
    ensures 2 * Total(out, BackEdges(NodeSet(nodes), out, order)) <= Total(out, EdgesOf(NodeSet(nodes), out))
    ensures Acyclic(GraphOf(NodeSet(nodes), out)) ==> BackEdges(NodeSet(nodes), out, order) == {}
  {
    var all := NodeSet(nodes);
    var left, right, rest := [], [], all;
    ghost var trace := Trace(map[], []);
    NothingPlaced(all, out);
    while rest != {}
      invariant Good(all, out, left, right, rest, trace)
      decreases rest
    {
      ghost var before := rest;
      left, right, rest, trace := Peel(all, out, left, right, rest, trace);
      if rest == {} {
        break;
      }
      left, rest, trace := PickLeft(all, out, left, right, rest, trace);
    }
    AllPlaced(all, out, left, right, trace.pos);
    GoneInNodes(all, out, trace.steps);
    RunIsOrder(all, out, left, right, trace);
    order := left + right;
  }
}
