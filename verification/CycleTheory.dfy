/** What cutting or inverting edges does to the components of a graph. */
module CycleTheory {
  import opened Digraph
  import opened EdgeWeights
  import opened TarjanTheory

  /** `u` is on no cycle, not even on a self-loop: it is a component of its own. */
  ghost predicate OnNoCycle(g: Graph, u: Name) {
    !ReachPlus(g, u, u)
  }

  /** `c` is the component of its members. */
  ghost predicate IsComponent(g: Graph, c: set<Name>) {
    forall u, v :: u in c ==> (v in c <==> Mutual(g, u, v))
  }

  function Cut(g: Graph, s: set<Edge>): Graph {
    map u | u in g :: set v | v in g[u] && (u, v) !in s
  }

  /** The edges of `s` turned round; the others stay. */
  function Invert(g: Graph, s: set<Edge>): Graph {
    map u | u in g.Keys + (set e | e in s :: e.1) ::
      (set v | v in Succ(g, u) && (u, v) !in s) + (set e | e in s && e.1 == u :: e.0)
  }

  lemma CutSucc(g: Graph, s: set<Edge>, u: Name, v: Name)
    ensures v in Succ(Cut(g, s), u) <==> v in Succ(g, u) && (u, v) !in s
  {
  }

  lemma InvertSucc(g: Graph, s: set<Edge>, u: Name, v: Name)
    ensures v in Succ(Invert(g, s), u) <==> (v in Succ(g, u) && (u, v) !in s) || (v, u) in s
  {
  }

  /** Every edge of `h` is a walk of `g`. */
  ghost predicate Within(g: Graph, h: Graph) {
    forall x, y :: y in Succ(h, x) ==> Reach(g, x, y)
  }

  lemma CutWithin(g: Graph, s: set<Edge>)
    ensures Within(g, Cut(g, s))
  {
    forall x, y | y in Succ(Cut(g, s), x)
      ensures Reach(g, x, y)
    {
      CutSucc(g, s, x, y);
      ReachEdge(g, x, y);
    }
  }

  /** The edges of `s` join members of `c`. */
  ghost predicate Inside(c: set<Name>, s: set<Edge>) {
    forall e :: e in s ==> e.0 in c && e.1 in c
  }

  lemma InvertWithin(g: Graph, c: set<Name>, s: set<Edge>)
    requires IsComponent(g, c) && Inside(c, s)
    ensures Within(g, Invert(g, s))
  {
    forall x, y | y in Succ(Invert(g, s), x)
      ensures Reach(g, x, y)
    {
      InvertSucc(g, s, x, y);
      if (y, x) in s {
        assert Mutual(g, x, y);
      } else {
        ReachEdge(g, x, y);
      }
    }
  }

  lemma SelfCycleIsMutual(g: Graph, u: Name, w: Name)
    requires w in Succ(g, u) && Reach(g, w, u)
    ensures Mutual(g, u, w)
  {
    ReachEdge(g, u, w);
  }

  lemma MutualGivesCycle(g: Graph, u: Name, v: Name)
    requires u != v && Mutual(g, u, v)
    ensures ReachPlus(g, u, u)
  {
    var n: nat :| ReachIn(g, u, v, n);
    var w :| w in Succ(g, u) && ReachIn(g, w, v, n - 1);
    ReachTrans(g, w, v, u);
  }

  /** No cycle means the component is the vertex alone. */
  lemma OnNoCycleIsSingleton(g: Graph, u: Name)
    requires OnNoCycle(g, u)
    ensures IsComponent(g, {u})
  {
    ReachSelf(g, u);
    forall v | Mutual(g, u, v)
      ensures v == u
    {
      if v != u {
        MutualGivesCycle(g, u, v);
      }
    }
  }

  // ---------------------------------------------------------------- multi-node components and cycles

  ghost predicate AllSingletons(r: seq<seq<Name>>) {
    forall i :: 0 <= i < |r| ==> |r[i]| <= 1
  }

  lemma TogetherIsBig(r: seq<seq<Name>>, u: Name, v: Name)
    requires Together(r, u, v) && u != v
    ensures !AllSingletons(r)
  {
  }

  lemma BigComponentIsCycle(g: Graph, r: seq<seq<Name>>, i: nat)
    requires IsDecomposition(g, r) && i < |r| && |r[i]| > 1
    ensures Mutual(g, r[i][0], r[i][1]) && r[i][0] != r[i][1]
    ensures !Acyclic(g)
  {
    var u, v := r[i][0], r[i][1];
    assert Among(r, |r|, u) && Among(r, |r|, v);
    assert Together(r, u, v);
    MutualGivesCycle(g, u, v);
    ReachPlusSelfIsCycle(g, u);
  }

  /** The list of multi-node components is empty exactly when the graph is a DAG. */
  lemma NoCyclesIffAcyclic(g: Graph, r: seq<seq<Name>>)
    requires IsDecomposition(g, r) && NoSelfLoops(g)
    ensures AllSingletons(r) <==> Acyclic(g)
  {
    if AllSingletons(r) {
      forall u, v | v in Succ(g, u)
        ensures !Reach(g, v, u)
      {
        if Reach(g, v, u) {
          SelfCycleIsMutual(g, u, v);
          assert u in Vertices(g) && v in Vertices(g);
          TogetherIsBig(r, u, v);
        }
      }
    } else {
      var i :| 0 <= i < |r| && |r[i]| > 1;
      BigComponentIsCycle(g, r, i);
    }
  }

  /** The members of a reported component form a component in the sense above. */
  lemma ReportedIsComponent(g: Graph, r: seq<seq<Name>>, i: nat)
    requires IsDecomposition(g, r) && i < |r|
    ensures IsComponent(g, set x | x in r[i])
  {
    var c := set x | x in r[i];
    forall u, v | u in c
      ensures v in c <==> Mutual(g, u, v)
    {
      assert Among(r, |r|, u);
      if v in c {
        assert Among(r, |r|, v) && Together(r, u, v);
      }
      if Mutual(g, u, v) {
        ReachStaysAmong(g, r, i, u, v);
        SameComponent(g, r, i, u, v);
      }
    }
  }

  lemma SameComponent(g: Graph, r: seq<seq<Name>>, i: nat, u: Name, v: Name)
    requires IsDecomposition(g, r) && i < |r| && u in r[i] && Mutual(g, u, v) && Among(r, i + 1, v)
    ensures v in r[i]
  {
    assert Among(r, |r|, u);
    var j :| 0 <= j < i + 1 && j < |r| && v in r[j];
    assert Among(r, |r|, v);
    var k :| 0 <= k < |r| && u in r[k] && v in r[k];
    assert k == i;
  }

  /** A graph has one decomposition, up to the order of and within components. */
  lemma DecompositionUnique(g: Graph, r: seq<seq<Name>>, q: seq<seq<Name>>, i: nat) returns (j: nat)
    requires IsDecomposition(g, r) && IsDecomposition(g, q) && i < |r|
    ensures j < |q| && (set x | x in r[i]) == (set x | x in q[j])
  {
    var u := r[i][0];
    assert Among(r, |r|, u);
    assert Among(q, |q|, u);
    j :| 0 <= j < |q| && u in q[j];
    ReportedIsComponent(g, r, i);
    ReportedIsComponent(g, q, j);
    SameComponentSet(g, (set x | x in r[i]), (set x | x in q[j]), u);
  }

  lemma SameComponentSet(g: Graph, a: set<Name>, b: set<Name>, u: Name)
    requires IsComponent(g, a) && IsComponent(g, b) && u in a && u in b
    ensures a == b
  {
  }

  // ---------------------------------------------------------------- forward edges

  /** Between members of `c`, every edge of `h` leads to a higher position. */
  ghost predicate ForwardWithin(h: Graph, c: set<Name>, pos: map<Name, nat>) {
    && c <= pos.Keys
    && forall x, y :: x in c && y in c && y in Succ(h, x) ==> pos[x] < pos[y]
  }

  /** Whatever lies on a walk of `h` between members of `c` is in `c`. */
  ghost predicate Convex(h: Graph, c: set<Name>) {
    forall x, y, z :: x in c && y in Succ(h, x) && z in c && Reach(h, y, z) ==> y in c
  }

  lemma {:induction false} ForwardWalk(h: Graph, c: set<Name>, pos: map<Name, nat>, u: Name, v: Name, n: nat)
    requires ForwardWithin(h, c, pos) && Convex(h, c)
    requires u in c && v in c && ReachIn(h, u, v, n)
    ensures pos[u] <= pos[v] && (n > 0 ==> pos[u] < pos[v])
    decreases n
  {
    if n > 0 {
      var w :| w in Succ(h, u) && ReachIn(h, w, v, n - 1);
      assert Reach(h, w, v);
      ForwardWalk(h, c, pos, w, v, n - 1);
    }
  }

  lemma ForwardOnNoCycle(h: Graph, c: set<Name>, pos: map<Name, nat>, u: Name)
    requires ForwardWithin(h, c, pos) && Convex(h, c) && u in c
    ensures OnNoCycle(h, u)
  {
    if ReachPlus(h, u, u) {
      var w :| w in Succ(h, u) && Reach(h, w, u);
      var n: nat :| ReachIn(h, w, u, n);
      assert ReachIn(h, u, u, n + 1);
      ForwardWalk(h, c, pos, u, u, n + 1);
    }
  }

  /** A component of `g` stays convex in any graph whose edges `g` can walk. */
  lemma ComponentConvex(g: Graph, h: Graph, c: set<Name>)
    requires IsComponent(g, c) && Within(g, h)
    ensures Convex(h, c)
  {
    forall x, y, z | x in c && y in Succ(h, x) && z in c && Reach(h, y, z)
      ensures y in c
    {
      ReachMapped(h, g, y, z);
      assert Mutual(g, x, z);
      ReachTrans(g, y, z, x);
      assert Mutual(g, x, y);
    }
  }

  /** A graph all of whose edges lead forwards is a DAG. */
  lemma AllForwardAcyclic(h: Graph, pos: map<Name, nat>)
    requires ForwardWithin(h, Vertices(h), pos)
    ensures Acyclic(h)
  {
    var c := Vertices(h);
    forall x, y | y in Succ(h, x)
      ensures y in c && x in c
    {
    }
    forall u, v | v in Succ(h, u)
      ensures !Reach(h, v, u)
    {
      ForwardOnNoCycle(h, c, pos, u);
      assert !ReachPlus(h, u, u);
    }
  }

  // ---------------------------------------------------------------- breaking a component by its back edges

  /** The edges between members of `c` that lead to a lower position. */
  ghost predicate AreBackEdges(g: Graph, c: set<Name>, pos: map<Name, nat>, s: set<Edge>) {
    && c <= pos.Keys
    && forall u, v :: (u, v) in s <==> u in c && v in c && v in Succ(g, u) && pos[v] < pos[u]
  }

  ghost predicate Injective(c: set<Name>, pos: map<Name, nat>)
    requires c <= pos.Keys
  {
    forall x, y :: x in c && y in c && pos[x] == pos[y] ==> x == y
  }

  /** Cutting the back edges leaves no member of the component on a cycle of the whole graph. */
  lemma CutBreaks(g: Graph, c: set<Name>, pos: map<Name, nat>, s: set<Edge>, u: Name)
    requires IsComponent(g, c) && AreBackEdges(g, c, pos, s) && Injective(c, pos) && NoSelfLoops(g) && u in c
    ensures OnNoCycle(Cut(g, s), u)
  {
    var h := Cut(g, s);
    forall x, y | x in c && y in c && y in Succ(h, x)
      ensures pos[x] < pos[y]
    {
      CutSucc(g, s, x, y);
    }
    CutWithin(g, s);
    ComponentConvex(g, h, c);
    ForwardOnNoCycle(h, c, pos, u);
  }

  /** So does inverting them. */
  lemma InvertBreaks(g: Graph, c: set<Name>, pos: map<Name, nat>, s: set<Edge>, u: Name)
    requires IsComponent(g, c) && AreBackEdges(g, c, pos, s) && Injective(c, pos) && NoSelfLoops(g) && u in c
    ensures OnNoCycle(Invert(g, s), u)
  {
    var h := Invert(g, s);
    forall x, y | x in c && y in c && y in Succ(h, x)
      ensures pos[x] < pos[y]
    {
      InvertSucc(g, s, x, y);
    }
    InvertWithin(g, c, s);
    ComponentConvex(g, h, c);
    ForwardOnNoCycle(h, c, pos, u);
  }

  /** Outside `c`, `h` has all edges of `g`. */
  ghost predicate KeepsOutside(g: Graph, h: Graph, c: set<Name>) {
    forall x, y :: x !in c && y in Succ(g, x) ==> y in Succ(h, x)
  }

  lemma {:induction false} WalkOutside(g: Graph, h: Graph, c: set<Name>, u: Name, v: Name, n: nat)
    requires IsComponent(g, c) && KeepsOutside(g, h, c)
    requires u !in c && ReachIn(g, u, v, n) && Reach(g, v, u)
    ensures Reach(h, u, v)
    decreases n
  {
    if n == 0 {
      ReachSelf(h, u);
    } else {
      var w :| w in Succ(g, u) && ReachIn(g, w, v, n - 1);
      assert Reach(g, w, v);
      ReachEdge(g, u, w);
      ReachTrans(g, w, v, u);
      ReachTrans(g, v, u, w);
      assert Mutual(g, w, u);
      assert w !in c;
      WalkOutside(g, h, c, w, v, n - 1);
      ReachFromEdge(h, u, w, v);
    }
  }

  /** Changing edges inside one component splits or joins no other. */
  lemma OthersKept(g: Graph, h: Graph, c: set<Name>, u: Name, v: Name)
    requires IsComponent(g, c) && Within(g, h) && KeepsOutside(g, h, c) && u !in c
    ensures Mutual(h, u, v) <==> Mutual(g, u, v)
  {
    if Mutual(g, u, v) {
      assert v !in c;
      var n: nat :| ReachIn(g, u, v, n);
      WalkOutside(g, h, c, u, v, n);
      var m: nat :| ReachIn(g, v, u, m);
      WalkOutside(g, h, c, v, u, m);
    }
    if Mutual(h, u, v) {
      ReachMapped(h, g, u, v);
      ReachMapped(h, g, v, u);
    }
  }

  lemma CutKeepsOthers(g: Graph, c: set<Name>, s: set<Edge>, u: Name, v: Name)
    requires IsComponent(g, c) && (forall e :: e in s ==> e.0 in c) && u !in c
    ensures Mutual(Cut(g, s), u, v) <==> Mutual(g, u, v)
  {
    CutWithin(g, s);
    OthersKept(g, Cut(g, s), c, u, v);
  }

  lemma InvertKeepsOthers(g: Graph, c: set<Name>, s: set<Edge>, u: Name, v: Name)
    requires IsComponent(g, c) && Inside(c, s) && u !in c
    ensures Mutual(Invert(g, s), u, v) <==> Mutual(g, u, v)
  {
    InvertWithin(g, c, s);
    forall x, y | x !in c && y in Succ(g, x)
      ensures y in Succ(Invert(g, s), x)
    {
      InvertSucc(g, s, x, y);
    }
    OthersKept(g, Invert(g, s), c, u, v);
  }

  /** A multi-node component that is not touched still makes a cycle. */
  lemma OtherCycleStays(g: Graph, h: Graph, r: seq<seq<Name>>, big: seq<Name>, c: seq<Name>)
    requires IsDecomposition(g, r) && big in r && c in r && |c| > 1 && c != big
    requires forall u, v :: u !in big ==> (Mutual(h, u, v) <==> Mutual(g, u, v))
    ensures !Acyclic(h)
  {
    var i :| 0 <= i < |r| && r[i] == c;
    var j :| 0 <= j < |r| && r[j] == big;
    BigComponentIsCycle(g, r, i);
    assert c[0] in r[i] && c[0] !in big;
    MutualGivesCycle(h, c[0], c[1]);
    ReachPlusSelfIsCycle(h, c[0]);
  }

  lemma ReachInVertices(g: Graph, u: Name, v: Name)
    requires u != v && Mutual(g, u, v)
    ensures u in Vertices(g) && v in Vertices(g)
  {
    MutualGivesCycle(g, u, v);
    MutualGivesCycle(g, v, u);
  }

  /** With the members of the only multi-node component off every cycle, none is left. */
  lemma OnlyCycleBroken(g: Graph, h: Graph, r: seq<seq<Name>>, big: seq<Name>)
    requires IsDecomposition(g, r) && Within(g, h) && NoSelfLoops(h)
    requires forall c :: c in r && |c| > 1 ==> c == big
    requires forall u :: u in big ==> OnNoCycle(h, u)
    ensures Acyclic(h)
  {
    forall u, v | v in Succ(h, u)
      ensures !Reach(h, v, u)
    {
      if Reach(h, v, u) {
        ReachMapped(h, g, v, u);
        assert Mutual(g, u, v) && u != v;
        ReachInVertices(g, u, v);
        TogetherInBig(r, big, u, v);
      }
    }
  }

  lemma TogetherInBig(r: seq<seq<Name>>, big: seq<Name>, u: Name, v: Name)
    requires Together(r, u, v) && u != v
    requires forall c :: c in r && |c| > 1 ==> c == big
    ensures u in big
  {
  }

  /** A component of more than one vertex has a back edge in every order. */
  lemma SomeBackEdge(g: Graph, c: set<Name>, pos: map<Name, nat>, s: set<Edge>, u: Name, v: Name)
    requires IsComponent(g, c) && AreBackEdges(g, c, pos, s) && Injective(c, pos) && NoSelfLoops(g)
    requires u in c && v in c && u != v
    ensures s != {}
  {
    if s == {} {
      var h := Cut(g, s);
      CutBreaks(g, c, pos, s, u);
      forall x, y | y in Succ(g, x)
        ensures Reach(h, x, y)
      {
        CutSucc(g, s, x, y);
        ReachEdge(h, x, y);
      }
      assert Mutual(g, u, v);
      ReachMapped(g, h, u, v);
      ReachMapped(g, h, v, u);
      MutualGivesCycle(h, u, v);
    }
  }

  // ---------------------------------------------------------------- evicting one member

  /** All edges of `n` into its own component are in `s`. */
  ghost predicate CutsAllInside(g: Graph, c: set<Name>, n: Name, s: set<Edge>) {
    forall d :: d in Succ(g, n) && d in c ==> (n, d) in s
  }

  /** With those edges gone, `n` is on no cycle, whatever else was cut. */
  lemma EvictionSuffices(g: Graph, c: set<Name>, n: Name, s: set<Edge>)
    requires IsComponent(g, c) && n in c && CutsAllInside(g, c, n, s)
    ensures OnNoCycle(Cut(g, s), n)
  {
    var h := Cut(g, s);
    CutWithin(g, s);
    if ReachPlus(h, n, n) {
      var w :| w in Succ(h, n) && Reach(h, w, n);
      CutSucc(g, s, n, w);
      ReachMapped(h, g, w, n);
      SelfCycleIsMutual(g, n, w);
    }
  }

  /** A walk to `n` only needs the out-edges of the other vertices. */
  lemma {:induction false} WalkBackAvoids(g: Graph, h: Graph, n: Name, d: Name, k: nat)
    requires KeepsOutside(g, h, {n}) && ReachIn(g, d, n, k)
    ensures Reach(h, d, n)
    decreases k
  {
    if d == n {
      ReachSelf(h, n);
    } else {
      var w :| w in Succ(g, d) && ReachIn(g, w, n, k - 1);
      WalkBackAvoids(g, h, n, w, k - 1);
      ReachFromEdge(h, d, w, n);
    }
  }

  /** Out-edge `n -> d` kept: `n` is still on a cycle. */
  lemma KeptEdgeHolds(g: Graph, h: Graph, n: Name, d: Name)
    requires Mutual(g, n, d) && d in Succ(h, n) && KeepsOutside(g, h, {n})
    ensures !OnNoCycle(h, n)
  {
    var k: nat :| ReachIn(g, d, n, k);
    WalkBackAvoids(g, h, n, d, k);
  }

  /** Among cuts of its own out-edges, a member leaves its component exactly when
      all of those into the component are cut. */
  lemma EvictionExact(g: Graph, c: set<Name>, n: Name, s: set<Edge>)
    requires IsComponent(g, c) && n in c && (forall e :: e in s ==> e.0 == n)
    ensures OnNoCycle(Cut(g, s), n) <==> CutsAllInside(g, c, n, s)
  {
    if CutsAllInside(g, c, n, s) {
      EvictionSuffices(g, c, n, s);
    } else {
      var d :| d in Succ(g, n) && d in c && (n, d) !in s;
      CutSucc(g, s, n, d);
      KeptEdgeHolds(g, Cut(g, s), n, d);
    }
  }

  /** The same when out-edges are turned round instead. */
  lemma EvictionByInverting(g: Graph, c: set<Name>, n: Name, s: set<Edge>)
    requires IsComponent(g, c) && n in c && NoSelfLoops(g)
    requires forall u, v :: (u, v) in s ==> u == n && v in c && v in Succ(g, n)
    ensures OnNoCycle(Invert(g, s), n) <==> CutsAllInside(g, c, n, s)
  {
    var h := Invert(g, s);
    forall x, y | x != n && y in Succ(g, x)
      ensures y in Succ(h, x)
    {
      InvertSucc(g, s, x, y);
    }
    if CutsAllInside(g, c, n, s) {
      InvertWithin(g, c, s);
      if ReachPlus(h, n, n) {
        var w :| w in Succ(h, n) && Reach(h, w, n);
        InvertSucc(g, s, n, w);
        ReachMapped(h, g, w, n);
        SelfCycleIsMutual(g, n, w);
      }
    } else {
      var d :| d in Succ(g, n) && d in c && (n, d) !in s;
      InvertSucc(g, s, n, d);
      KeptEdgeHolds(g, h, n, d);
    }
  }

  // ---------------------------------------------------------------- evicting by in-edges

  lemma {:induction false} LastEdge(h: Graph, w: Name, n: Name, k: nat) returns (x: Name)
    requires w != n && ReachIn(h, w, n, k)
    ensures Reach(h, w, x) && n in Succ(h, x)
    decreases k
  {
    var z :| z in Succ(h, w) && ReachIn(h, z, n, k - 1);
    if z == n {
      ReachSelf(h, w);
      x := w;
    } else {
      x := LastEdge(h, z, n, k - 1);
      ReachFromEdge(h, w, z, x);
    }
  }

  /** A walk from `n` only needs the edges that do not lead back to `n`. */
  lemma {:induction false} WalkOnAvoids(g: Graph, s: set<Edge>, n: Name, y: Name, x: Name, k: nat)
    requires (forall e :: e in s ==> e.1 == n) && ReachIn(g, y, x, k)
    ensures Reach(Cut(g, s), y, x) || Reach(Cut(g, s), n, x)
    decreases k
  {
    if k == 0 {
      ReachSelf(Cut(g, s), x);
    } else {
      var w :| w in Succ(g, y) && ReachIn(g, w, x, k - 1);
      WalkOnAvoids(g, s, n, w, x, k - 1);
      if w != n && Reach(Cut(g, s), w, x) {
        CutSucc(g, s, y, w);
        ReachFromEdge(Cut(g, s), y, w, x);
      }
    }
  }

  /** Among cuts of the edges that lead to it, a member leaves its component
      exactly when all of those from the component are cut. Its own out-edges
      can all stay. */
  lemma EvictionByInEdges(g: Graph, c: set<Name>, n: Name, s: set<Edge>)
    requires IsComponent(g, c) && n in c && NoSelfLoops(g) && (forall e :: e in s ==> e.1 == n)
    ensures OnNoCycle(Cut(g, s), n) <==> forall x :: x in c && n in Succ(g, x) ==> (x, n) in s
  {
    var h := Cut(g, s);
    CutWithin(g, s);
    if ReachPlus(h, n, n) {
      var w :| w in Succ(h, n) && Reach(h, w, n);
      CutSucc(g, s, n, w);
      var k: nat :| ReachIn(h, w, n, k);
      var x := LastEdge(h, w, n, k);
      CutSucc(g, s, x, n);
      ReachFromEdge(h, n, w, x);
      ReachMapped(h, g, n, x);
      ReachEdge(g, x, n);
      assert Mutual(g, n, x);
    }
    if x :| x in c && n in Succ(g, x) && (x, n) !in s {
      assert Mutual(g, n, x);
      var k: nat :| ReachIn(g, n, x, k);
      WalkOnAvoids(g, s, n, n, x, k);
      CutSucc(g, s, x, n);
      ReachEdge(h, x, n);
      MutualGivesCycle(h, n, x);
    }
  }

  /** So every member can be evicted with all its own out-edges kept: the claim
      that they all have to be cut does not hold for any member that has one. */
  lemma OutEdgesCanStay(g: Graph, c: set<Name>, n: Name) returns (s: set<Edge>)
    requires IsComponent(g, c) && n in c && NoSelfLoops(g)
    ensures OnNoCycle(Cut(g, s), n)
    ensures forall d :: (n, d) !in s
  {
    s := set x | x in c && n in Succ(g, x) :: (x, n);
    EvictionByInEdges(g, c, n, s);
  }
}
