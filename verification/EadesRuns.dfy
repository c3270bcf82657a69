/** Greedy runs: the order is built by peeling sinks and sources and by picking,
    and which edges end up turned back depends on the picks alone. */
module EadesRuns {
  import opened Basics
  import opened Digraph
  import opened EdgeWeights
  import opened EadesTheory

  /** Why a vertex was taken out of the rest. */
  datatype Kind = AsSink | AsSource | AsPick

  datatype Step = Step(n: Name, kind: Kind)

  ghost function Gone(steps: seq<Step>): set<Name> {
    set i | 0 <= i < |steps| :: steps[i].n
  }

  ghost predicate LeadsInto(edges: set<Edge>, x: Name, rest: set<Name>) {
    exists v :: v in rest && (x, v) in edges
  }

  ghost predicate IsLedTo(edges: set<Edge>, x: Name, rest: set<Name>) {
    exists u :: u in rest && (u, x) in edges
  }

  /** `s` has neither a sink nor a source. */
  ghost predicate Stuck(edges: set<Edge>, s: set<Name>) {
    && (forall x {:trigger LeadsInto(edges, x, s)} :: x in s ==> LeadsInto(edges, x, s))
    && (forall x {:trigger IsLedTo(edges, x, s)} :: x in s ==> IsLedTo(edges, x, s))
  }

  /** A step is allowed with `rest` still to be placed: a sink has no edge into
      the rest, a source none from it, and a vertex is picked only when there is
      neither, and no other one has a higher score. */
  ghost predicate StepOk(out: OutEdges, edges: set<Edge>, rest: set<Name>, st: Step) {
    && st.n in rest
    && match st.kind
       case AsSink => !LeadsInto(edges, st.n, rest)
       case AsSource => !IsLedTo(edges, st.n, rest)
       case AsPick =>
         && Stuck(edges, rest)
         && (forall x :: x in rest ==> Score(out, edges, rest, x) <= Score(out, edges, rest, st.n))
  }

  ghost predicate StepAt(nodes: set<Name>, out: OutEdges, steps: seq<Step>, i: nat)
    requires i < |steps|
  {
    StepOk(out, EdgesOf(nodes, out), nodes - Gone(steps[..i]), steps[i])
  }

  ghost predicate GreedyRun(nodes: set<Name>, out: OutEdges, steps: seq<Step>) {
    forall i {:trigger StepAt(nodes, out, steps, i)} :: 0 <= i < |steps| ==> StepAt(nodes, out, steps, i)
  }

  /** Sources and picks, in turn. */
  ghost function LeftOf(steps: seq<Step>): seq<Name> {
    if steps == [] then []
    else
      var n := |steps| - 1;
      LeftOf(steps[..n]) + (if steps[n].kind.AsSink? then [] else [steps[n].n])
  }

  /** Sinks, the latest first. */
  ghost function RightOf(steps: seq<Step>): seq<Name> {
    if steps == [] then []
    else
      var n := |steps| - 1;
      (if steps[n].kind.AsSink? then [steps[n].n] else []) + RightOf(steps[..n])
  }

  /** The order comes from a greedy run over all nodes. */
  ghost predicate Built(nodes: set<Name>, out: OutEdges, steps: seq<Step>, order: seq<Name>) {
    GreedyRun(nodes, out, steps) && Gone(steps) == nodes && order == LeftOf(steps) + RightOf(steps)
  }

  ghost predicate IsGreedyOrder(nodes: set<Name>, out: OutEdges, order: seq<Name>) {
    exists steps :: Built(nodes, out, steps, order)
  }

  // ---------------------------------------------------------------- one more step

  /** A run so far, and what it has left to place. */
  ghost predicate RunTo(nodes: set<Name>, out: OutEdges, steps: seq<Step>, left: seq<Name>, right: seq<Name>, rest: set<Name>) {
    GreedyRun(nodes, out, steps) && rest == nodes - Gone(steps) && left == LeftOf(steps) && right == RightOf(steps)
  }

  lemma RunGrows(nodes: set<Name>, out: OutEdges, steps: seq<Step>, left: seq<Name>, right: seq<Name>, rest: set<Name>, st: Step)
    requires RunTo(nodes, out, steps, left, right, rest) && StepOk(out, EdgesOf(nodes, out), rest, st)
    ensures st.kind.AsSink? ==> RunTo(nodes, out, steps + [st], left, [st.n] + right, rest - {st.n})
    ensures !st.kind.AsSink? ==> RunTo(nodes, out, steps + [st], left + [st.n], right, rest - {st.n})
  {
    var longer, n := steps + [st], |steps|;
    assert longer[..n] == steps;
    forall i | 0 <= i < |longer|
      ensures StepAt(nodes, out, longer, i)
    {
      if i < n {
        assert longer[..i] == steps[..i];
        assert StepAt(nodes, out, steps, i);
      }
    }
    GoneGrows(longer);
  }

  lemma GoneGrows(steps: seq<Step>)
    requires steps != []
    ensures Gone(steps) == Gone(steps[..|steps| - 1]) + {steps[|steps| - 1].n}
  {
    assert steps == steps[..|steps| - 1] + [steps[|steps| - 1]];
    forall x | x in Gone(steps[..|steps| - 1])
      ensures x in Gone(steps)
    {
      var i :| 0 <= i < |steps| - 1 && steps[..|steps| - 1][i].n == x;
      assert steps[i].n == x;
    }
  }

  lemma GoneInNodes(nodes: set<Name>, out: OutEdges, steps: seq<Step>)
    requires GreedyRun(nodes, out, steps)
    ensures Gone(steps) <= nodes
  {
    forall i | 0 <= i < |steps|
      ensures steps[i].n in nodes
    {
      assert StepAt(nodes, out, steps, i);
    }
  }

  // ---------------------------------------------------------------- where a step puts its vertex

  lemma {:induction false} SidesGrow(steps: seq<Step>, i: nat, j: nat)
    requires i < j <= |steps|
    ensures |LeftOf(steps[..i])| + (if steps[i].kind.AsSink? then 0 else 1) <= |LeftOf(steps[..j])|
    ensures |RightOf(steps[..i])| + (if steps[i].kind.AsSink? then 1 else 0) <= |RightOf(steps[..j])|
    decreases j
  {
    assert steps[..j][..j - 1] == steps[..j - 1];
    if i < j - 1 {
      SidesGrow(steps, i, j - 1);
    }
  }

  lemma {:induction false} PlacedAt(steps: seq<Step>, i: nat)
    requires i < |steps|
    ensures !steps[i].kind.AsSink? ==>
              |LeftOf(steps[..i])| < |LeftOf(steps)| && LeftOf(steps)[|LeftOf(steps[..i])|] == steps[i].n
    ensures steps[i].kind.AsSink? ==>
              |RightOf(steps[..i])| < |RightOf(steps)|
              && RightOf(steps)[|RightOf(steps)| - 1 - |RightOf(steps[..i])|] == steps[i].n
    decreases |steps|
  {
    var n := |steps| - 1;
    if i < n {
      PlacedAt(steps[..n], i);
      assert steps[..n][..i] == steps[..i];
    }
  }

  /** The position of the vertex of step `i`. */
  ghost function PlaceOf(steps: seq<Step>, i: nat): int
    requires i < |steps|
  {
    if steps[i].kind.AsSink? then |LeftOf(steps)| + |RightOf(steps)| - 1 - |RightOf(steps[..i])| else |LeftOf(steps[..i])|
  }

  lemma PlaceIsPosition(nodes: set<Name>, out: OutEdges, steps: seq<Step>, order: seq<Name>, i: nat)
    requires Built(nodes, out, steps, order) && NoDup(order) && i < |steps|
    ensures steps[i].n in Positions(order) && Positions(order)[steps[i].n] == PlaceOf(steps, i)
  {
    PlacedAt(steps, i);
    PositionsAt(order, PlaceOf(steps, i));
  }

  /** Of two steps, the earlier one is placed first unless it took out a sink. */
  lemma PlacesInTurn(steps: seq<Step>, i: nat, j: nat)
    requires i < j < |steps|
    ensures PlaceOf(steps, i) < PlaceOf(steps, j) <==> !steps[i].kind.AsSink?
  {
    SidesGrow(steps, i, j);
    SidesGrow(steps, i, |steps|);
    SidesGrow(steps, j, |steps|);
    assert steps[..|steps|] == steps;
  }

  // ---------------------------------------------------------------- the edges turned back

  /** The edges from what is then left into a picked vertex. */
  ghost function IntoPicks(nodes: set<Name>, out: OutEdges, steps: seq<Step>): set<Edge> {
    set e, i | e in EdgesOf(nodes, out) && 0 <= i < |steps| && steps[i] == Step(e.1, AsPick) && e.0 in nodes - Gone(steps[..i + 1]) :: e
  }

  lemma StillThere(nodes: set<Name>, out: OutEdges, steps: seq<Step>, i: nat, j: nat)
    requires GreedyRun(nodes, out, steps) && i < j < |steps|
    ensures steps[j].n in nodes - Gone(steps[..i]) && steps[j].n in nodes - Gone(steps[..i + 1])
  {
    assert StepAt(nodes, out, steps, j);
    forall k | 0 <= k <= i
      ensures steps[k].n in Gone(steps[..j])
    {
      assert steps[..j][k] == steps[k];
    }
  }

  /** An edge between the vertices of two steps points back exactly when it enters
      an earlier pick. */
  lemma BackIntoPick(nodes: set<Name>, out: OutEdges, steps: seq<Step>, a: nat, b: nat)
    requires GreedyRun(nodes, out, steps) && a < |steps| && b < |steps|
    requires (steps[a].n, steps[b].n) in EdgesOf(nodes, out)
    ensures PlaceOf(steps, b) < PlaceOf(steps, a) <==> steps[b].kind.AsPick? && b < a
  {
    if a < b {
      StillThere(nodes, out, steps, a, b);
      assert StepAt(nodes, out, steps, a);
      assert LeadsInto(EdgesOf(nodes, out), steps[a].n, nodes - Gone(steps[..a]));
      PlacesInTurn(steps, a, b);
    } else if b < a {
      StillThere(nodes, out, steps, b, a);
      assert StepAt(nodes, out, steps, b);
      assert IsLedTo(EdgesOf(nodes, out), steps[b].n, nodes - Gone(steps[..b]));
      PlacesInTurn(steps, b, a);
      PlacesDiffer(steps, b, a);
    }
  }

  lemma PlacesDiffer(steps: seq<Step>, i: nat, j: nat)
    requires i < j < |steps|
    ensures PlaceOf(steps, i) != PlaceOf(steps, j)
  {
    SidesGrow(steps, i, j);
    SidesGrow(steps, i, |steps|);
    SidesGrow(steps, j, |steps|);
    assert steps[..|steps|] == steps;
  }

  lemma StepOf(steps: seq<Step>, x: Name) returns (i: nat)
    requires x in Gone(steps)
    ensures i < |steps| && steps[i].n == x
  {
    i :| 0 <= i < |steps| && steps[i].n == x;
  }

  lemma LaterIsLeft(nodes: set<Name>, out: OutEdges, steps: seq<Step>, a: nat, b: nat)
    requires GreedyRun(nodes, out, steps) && a < |steps| && b < |steps|
    ensures steps[a].n in nodes - Gone(steps[..b + 1]) <==> b < a
  {
    if b < a {
      StillThere(nodes, out, steps, b, a);
    } else {
      assert steps[..b + 1][a] == steps[a];
    }
  }

  lemma OneStepEach(nodes: set<Name>, out: OutEdges, steps: seq<Step>, i: nat, j: nat)
    requires GreedyRun(nodes, out, steps) && i < |steps| && j < |steps| && steps[i].n == steps[j].n
    ensures i == j
  {
    LaterIsLeft(nodes, out, steps, i, j);
    LaterIsLeft(nodes, out, steps, j, j);
    LaterIsLeft(nodes, out, steps, i, i);
    LaterIsLeft(nodes, out, steps, j, i);
  }

  lemma IntoPickAt(nodes: set<Name>, out: OutEdges, steps: seq<Step>, a: nat, b: nat)
    requires GreedyRun(nodes, out, steps) && a < |steps| && b < |steps|
    requires (steps[a].n, steps[b].n) in EdgesOf(nodes, out)
    ensures (steps[a].n, steps[b].n) in IntoPicks(nodes, out, steps) <==> steps[b].kind.AsPick? && b < a
  {
    var e := (steps[a].n, steps[b].n);
    LaterIsLeft(nodes, out, steps, a, b);
    if e in IntoPicks(nodes, out, steps) {
      var i :| 0 <= i < |steps| && steps[i] == Step(e.1, AsPick) && e.0 in nodes - Gone(steps[..i + 1]);
      OneStepEach(nodes, out, steps, i, b);
    }
    if steps[b].kind.AsPick? && b < a {
      assert steps[b] == Step(e.1, AsPick);
    }
  }

  lemma BackByPosition(nodes: set<Name>, out: OutEdges, order: seq<Name>, e: Edge)
    requires NoDup(order) && e in EdgesOf(nodes, out) && e.0 in Positions(order) && e.1 in Positions(order)
    ensures e in BackEdges(nodes, out, order) <==> Positions(order)[e.1] < Positions(order)[e.0]
  {
  }

  lemma BackOrIntoPick(nodes: set<Name>, out: OutEdges, steps: seq<Step>, order: seq<Name>, e: Edge)
    requires Built(nodes, out, steps, order) && IsOrderOf(order, nodes) && WellFormed(nodes, out) && e in EdgesOf(nodes, out)
    ensures e in BackEdges(nodes, out, order) <==> e in IntoPicks(nodes, out, steps)
  {
    var a := StepOf(steps, e.0);
    var b := StepOf(steps, e.1);
    assert e == (steps[a].n, steps[b].n);
    PlaceIsPosition(nodes, out, steps, order, a);
    PlaceIsPosition(nodes, out, steps, order, b);
    BackByPosition(nodes, out, order, e);
    BackIntoPick(nodes, out, steps, a, b);
    IntoPickAt(nodes, out, steps, a, b);
  }

  /** The back edges of a greedy order are exactly the edges into a pick from
      what was left after it. */
  lemma BackEdgesEnterPicks(nodes: set<Name>, out: OutEdges, steps: seq<Step>, order: seq<Name>)
    requires Built(nodes, out, steps, order) && IsOrderOf(order, nodes) && WellFormed(nodes, out)
    ensures BackEdges(nodes, out, order) == IntoPicks(nodes, out, steps)
  {
    forall e | e in EdgesOf(nodes, out)
      ensures e in BackEdges(nodes, out, order) <==> e in IntoPicks(nodes, out, steps)
    {
      BackOrIntoPick(nodes, out, steps, order, e);
    }
  }

  // ---------------------------------------------------------------- only the picks matter

  /** The picked vertices, in turn. */
  ghost function Picks(steps: seq<Step>): seq<Name> {
    if steps == [] then []
    else
      var n := |steps| - 1;
      Picks(steps[..n]) + (if steps[n].kind.AsPick? then [steps[n].n] else [])
  }

  lemma {:induction false} PicksAreGone(steps: seq<Step>)
    ensures forall x :: x in Picks(steps) ==> x in Gone(steps)
    decreases |steps|
  {
    if steps != [] {
      PicksAreGone(steps[..|steps| - 1]);
      GoneGrows(steps);
    }
  }

  lemma PickStuck(nodes: set<Name>, out: OutEdges, steps: seq<Step>, i: nat)
    requires GreedyRun(nodes, out, steps) && i < |steps| && steps[i].kind.AsPick?
    ensures Stuck(EdgesOf(nodes, out), nodes - Gone(steps[..i])) && steps[i].n in nodes - Gone(steps[..i])
  {
    assert StepAt(nodes, out, steps, i);
  }

  lemma NotPeeled(out: OutEdges, edges: set<Edge>, rest: set<Name>, st: Step, s: set<Name>)
    requires StepOk(out, edges, rest, st) && Stuck(edges, s) && s <= rest && st.n in s
    ensures st.kind.AsPick?
  {
    assert LeadsInto(edges, st.n, s) && IsLedTo(edges, st.n, s);
  }

  /** What cannot be peeled stays until it is picked from. */
  lemma {:induction false} StuckStays(nodes: set<Name>, out: OutEdges, steps: seq<Step>, j: nat, s: set<Name>)
    requires GreedyRun(nodes, out, steps) && j <= |steps|
    requires s <= nodes && Stuck(EdgesOf(nodes, out), s) && forall x :: x in Picks(steps[..j]) ==> x !in s
    ensures s <= nodes - Gone(steps[..j])
    decreases j
  {
    if j > 0 {
      var before, edges, x := steps[..j - 1], EdgesOf(nodes, out), steps[j - 1].n;
      assert steps[..j][..j - 1] == before && steps[..j] == before + [steps[j - 1]];
      StuckStays(nodes, out, steps, j - 1, s);
      GoneGrows(steps[..j]);
      assert StepAt(nodes, out, steps, j - 1);
      assert steps[j - 1].kind.AsPick? ==> x in Picks(steps[..j]);
      if x in s {
        NotPeeled(out, edges, nodes - Gone(before), steps[j - 1], s);
      }
    }
  }

  lemma {:induction false} PickAt(steps: seq<Step>, k: nat) returns (i: nat)
    requires k < |Picks(steps)|
    ensures i < |steps| && steps[i] == Step(Picks(steps)[k], AsPick) && Picks(steps[..i]) == Picks(steps)[..k]
    decreases |steps|
  {
    var n := |steps| - 1;
    if k < |Picks(steps[..n])| {
      i := PickAt(steps[..n], k);
      assert steps[..n][..i] == steps[..i];
    } else {
      i := n;
    }
  }

  lemma {:induction false} PicksBefore(steps: seq<Step>, i: nat)
    requires i < |steps| && steps[i].kind.AsPick?
    ensures |Picks(steps[..i])| < |Picks(steps)|
    ensures Picks(steps)[..|Picks(steps[..i])|] == Picks(steps[..i]) && Picks(steps)[|Picks(steps[..i])|] == steps[i].n
    decreases |steps|
  {
    var n := |steps| - 1;
    if i < n {
      PicksBefore(steps[..n], i);
      assert steps[..n][..i] == steps[..i];
    }
  }

  /** Two runs with the same picks so far are left with the same vertices when
      they pick next, however they peeled in between. */
  lemma SameLeft(nodes: set<Name>, out: OutEdges, s: seq<Step>, i: nat, t: seq<Step>, j: nat)
    requires GreedyRun(nodes, out, s) && i < |s| && s[i].kind.AsPick?
    requires GreedyRun(nodes, out, t) && j < |t| && t[j].kind.AsPick?
    requires Picks(s[..i]) == Picks(t[..j])
    ensures nodes - Gone(s[..i]) == nodes - Gone(t[..j])
  {
    PickStuck(nodes, out, s, i);
    PickStuck(nodes, out, t, j);
    PicksAreGone(s[..i]);
    PicksAreGone(t[..j]);
    StuckStays(nodes, out, s, i, nodes - Gone(t[..j]));
    StuckStays(nodes, out, t, j, nodes - Gone(s[..i]));
  }

  lemma LeftAfter(nodes: set<Name>, s: seq<Step>, i: nat)
    requires i < |s|
    ensures nodes - Gone(s[..i + 1]) == nodes - Gone(s[..i]) - {s[i].n}
  {
    assert s[..i + 1][..i] == s[..i];
    GoneGrows(s[..i + 1]);
  }

  lemma SamePickIncludes(nodes: set<Name>, out: OutEdges, s: seq<Step>, t: seq<Step>, i: nat, e: Edge)
    requires GreedyRun(nodes, out, s) && GreedyRun(nodes, out, t) && Picks(s) == Picks(t) && e in EdgesOf(nodes, out)
    requires i < |s| && s[i] == Step(e.1, AsPick) && e.0 in nodes - Gone(s[..i + 1])
    ensures e in IntoPicks(nodes, out, t)
  {
    PicksBefore(s, i);
    var j := PickAt(t, |Picks(s[..i])|);
    SameLeft(nodes, out, s, i, t, j);
    LeftAfter(nodes, s, i);
    LeftAfter(nodes, t, j);
  }

  lemma SamePicksInclude(nodes: set<Name>, out: OutEdges, s: seq<Step>, t: seq<Step>)
    requires GreedyRun(nodes, out, s) && GreedyRun(nodes, out, t) && Picks(s) == Picks(t)
    ensures IntoPicks(nodes, out, s) <= IntoPicks(nodes, out, t)
  {
    forall e | e in IntoPicks(nodes, out, s)
      ensures e in IntoPicks(nodes, out, t)
    {
      var i :| 0 <= i < |s| && s[i] == Step(e.1, AsPick) && e.0 in nodes - Gone(s[..i + 1]);
      SamePickIncludes(nodes, out, s, t, i, e);
    }
  }

  /** The picks decide which edges are turned back. */
  lemma PicksDecide(nodes: set<Name>, out: OutEdges, s: seq<Step>, a: seq<Name>, t: seq<Step>, b: seq<Name>)
    requires WellFormed(nodes, out) && IsOrderOf(a, nodes) && IsOrderOf(b, nodes)
    requires Built(nodes, out, s, a) && Built(nodes, out, t, b) && Picks(s) == Picks(t)
    ensures BackEdges(nodes, out, a) == BackEdges(nodes, out, b)
  {
    BackEdgesEnterPicks(nodes, out, s, a);
    BackEdgesEnterPicks(nodes, out, t, b);
    SamePicksInclude(nodes, out, s, t);
    SamePicksInclude(nodes, out, t, s);
  }

  /** No pick of the run had a rival with the same score. */
  ghost predicate NoTies(nodes: set<Name>, out: OutEdges, steps: seq<Step>) {
    forall i, x :: 0 <= i < |steps| && steps[i].kind.AsPick? && x in nodes - Gone(steps[..i]) && x != steps[i].n ==>
      Score(out, EdgesOf(nodes, out), nodes - Gone(steps[..i]), x) < Score(out, EdgesOf(nodes, out), nodes - Gone(steps[..i]), steps[i].n)
  }

  lemma SameNextPick(nodes: set<Name>, out: OutEdges, s: seq<Step>, t: seq<Step>, k: nat)
    requires GreedyRun(nodes, out, s) && GreedyRun(nodes, out, t) && NoTies(nodes, out, s)
    requires k < |Picks(s)| && k < |Picks(t)| && Picks(s)[..k] == Picks(t)[..k]
    ensures Picks(s)[k] == Picks(t)[k]
  {
    var i := PickAt(s, k);
    var j := PickAt(t, k);
    SameLeft(nodes, out, s, i, t, j);
    assert StepAt(nodes, out, t, j);
    assert StepAt(nodes, out, s, i);
  }

  /** A complete run leaves nothing another one could still pick. */
  lemma NoMorePicks(nodes: set<Name>, out: OutEdges, s: seq<Step>, t: seq<Step>)
    requires GreedyRun(nodes, out, s) && GreedyRun(nodes, out, t) && Gone(s) == nodes
    requires |Picks(s)| <= |Picks(t)| && Picks(t)[..|Picks(s)|] == Picks(s)
    ensures Picks(t) == Picks(s)
  {
    if |Picks(s)| < |Picks(t)| {
      var j := PickAt(t, |Picks(s)|);
      PickStuck(nodes, out, t, j);
      PicksAreGone(t[..j]);
      assert s[..|s|] == s;
      StuckStays(nodes, out, s, |s|, nodes - Gone(t[..j]));
    }
  }

  lemma {:induction false} SamePicksUpTo(nodes: set<Name>, out: OutEdges, s: seq<Step>, t: seq<Step>, k: nat)
    requires GreedyRun(nodes, out, s) && GreedyRun(nodes, out, t) && NoTies(nodes, out, s)
    requires k <= |Picks(s)| && k <= |Picks(t)|
    ensures Picks(s)[..k] == Picks(t)[..k]
    decreases k
  {
    if k > 0 {
      SamePicksUpTo(nodes, out, s, t, k - 1);
      SameNextPick(nodes, out, s, t, k - 1);
      assert Picks(s)[..k] == Picks(s)[..k - 1] + [Picks(s)[k - 1]];
      assert Picks(t)[..k] == Picks(t)[..k - 1] + [Picks(t)[k - 1]];
    }
  }

  /** Without ties every run lists the same back edges, so walking sets in another
      order changes nothing in the report. */
  lemma BackEdgesDetermined(nodes: set<Name>, out: OutEdges, s: seq<Step>, a: seq<Name>, b: seq<Name>)
    requires WellFormed(nodes, out) && IsOrderOf(a, nodes) && IsOrderOf(b, nodes)
    requires Built(nodes, out, s, a) && NoTies(nodes, out, s) && IsGreedyOrder(nodes, out, b)
    ensures BackEdges(nodes, out, a) == BackEdges(nodes, out, b)
  {
    var t :| Built(nodes, out, t, b);
    var k := Min(|Picks(s)|, |Picks(t)|);
    SamePicksUpTo(nodes, out, s, t, k);
    if |Picks(s)| <= |Picks(t)| {
      NoMorePicks(nodes, out, s, t);
    } else {
      NoMorePicks(nodes, out, t, s);
    }
    PicksDecide(nodes, out, s, a, t, b);
  }
}
