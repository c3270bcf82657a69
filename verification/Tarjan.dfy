/** Tarjan's search, updating its tables in place.

    Successors and roots are taken in an arbitrary order, so what is proved
    holds for the alphabetical order of the program in particular. */
module Tarjan {
  import opened Basics
  import opened Digraph
  import opened TarjanTheory

  ghost predicate KeepsBut(low0: map<Name, nat>, low1: map<Name, nat>, v: Name) {
    forall x :: x in low0 && x != v ==> x in low1 && low1[x] == low0[x]
  }

  ghost predicate Keeps(low0: map<Name, nat>, low1: map<Name, nat>) {
    forall x :: x in low0 ==> x in low1 && low1[x] == low0[x]
  }

  class Search {
    const graph: Graph
    var counter: nat
    var stack: seq<Name>
    var onStack: map<Name, bool>
    var index: map<Name, nat>
    var lowlink: map<Name, nat>
    var result: seq<seq<Name>>

    ghost function Tables(): State
      reads this`counter, this`stack, this`onStack, this`index, this`result
    {
      State(counter, stack, onStack, index, result)
    }

    /** The invariant between two steps; `gray` are the calls still running. */
    ghost predicate Valid(gray: set<Name>)
      reads this
    {
      Inv(graph, Tables(), gray) && lowlink.Keys == index.Keys
    }

    constructor (g: Graph)
      ensures graph == g && Valid({}) && index == map[]
    {
      graph := g;
      counter, stack, onStack, index, lowlink, result := 0, [], map[], map[], map[], [];
    }

    method StrongConnect(v: Name, ghost gray: set<Name>)
      requires Valid(gray) && v in Vertices(graph) && v !in index
      requires forall x :: x in gray ==> Reach(graph, x, v)
      modifies this
      ensures lowlink.Keys == index.Keys
      ensures v in lowlink && CallOk(graph, old(Tables()), Tables(), v, gray, lowlink[v])
      ensures Keeps(old(lowlink), lowlink)
      decreases Vertices(graph) - index.Keys, 0
    {
      ghost var s0 := Tables();
      EnterOk(graph, s0, v, gray);
      BeginCall(v);
      Scan(v, s0, gray);
      FinishCall(v, s0, gray);
    }

    /** The loop over the successors of `v`. */
    method Scan(v: Name, ghost s0: State, ghost gray: set<Name>)
      requires v in lowlink && lowlink.Keys == index.Keys
      requires Inside(graph, s0, Tables(), v, gray)
      requires LowOk(graph, Tables(), s0.counter, v, lowlink[v], Succ(graph, v))
      modifies this
      ensures v in lowlink && lowlink.Keys == index.Keys
      ensures Inside(graph, s0, Tables(), v, gray)
      ensures LowOk(graph, Tables(), s0.counter, v, lowlink[v], {})
      ensures old(index.Keys) <= index.Keys && KeepsBut(old(lowlink), lowlink, v)
      decreases Vertices(graph) - index.Keys, 3
    {
      var todo := Succ(graph, v);
      while todo != {}
        invariant todo <= Succ(graph, v) && v in lowlink && lowlink.Keys == index.Keys
        invariant old(index.Keys) <= index.Keys
        invariant Inside(graph, s0, Tables(), v, gray)
        invariant LowOk(graph, Tables(), s0.counter, v, lowlink[v], todo)
        invariant KeepsBut(old(lowlink), lowlink, v)
        decreases todo
      {
        var w :| w in todo;
        Follow(v, w, s0, gray, todo);
        todo := todo - {w};
      }
    }

    /** The assignments at the top of a call. */
    method BeginCall(v: Name)
      requires v !in index && lowlink.Keys == index.Keys
      modifies this
      ensures Tables() == Enter(old(Tables()), v)
      ensures lowlink == old(lowlink)[v := old(counter)] && lowlink.Keys == index.Keys
      ensures Keeps(old(lowlink), lowlink)
    {
      index := index[v := counter];
      lowlink := lowlink[v := counter];
      counter := counter + 1;
      stack := stack + [v];
      onStack := onStack[v := true];
    }

    /** The body of the loop over the successors `w` of `v`. */
    method Follow(v: Name, w: Name, ghost s0: State, ghost gray: set<Name>, ghost todo: set<Name>)
      requires w in Succ(graph, v) && v in lowlink && lowlink.Keys == index.Keys
      requires Inside(graph, s0, Tables(), v, gray)
      requires LowOk(graph, Tables(), s0.counter, v, lowlink[v], todo)
      modifies this
      ensures v in lowlink && lowlink.Keys == index.Keys
      ensures Inside(graph, s0, Tables(), v, gray)
      ensures LowOk(graph, Tables(), s0.counter, v, lowlink[v], todo - {w})
      ensures old(index.Keys) <= index.Keys && KeepsBut(old(lowlink), lowlink, v)
      decreases Vertices(graph) - index.Keys, 2
    {
      if w !in index {
        Descend(v, w, s0, gray, todo);
      } else {
        ghost var s := Tables();
        VisitedOk(graph, s, s0.counter, v, lowlink[v], todo, w);
        if w in onStack && onStack[w] {
          LowerTo(v, index[w]);
        }
        assert Tables() == s;
      }
    }

    /** A successor that was not visited yet: call, then take over its lowlink. */
    method Descend(v: Name, w: Name, ghost s0: State, ghost gray: set<Name>, ghost todo: set<Name>)
      requires w in Succ(graph, v) && v in lowlink && lowlink.Keys == index.Keys && w !in index
      requires Inside(graph, s0, Tables(), v, gray)
      requires LowOk(graph, Tables(), s0.counter, v, lowlink[v], todo)
      modifies this
      ensures v in lowlink && lowlink.Keys == index.Keys
      ensures Inside(graph, s0, Tables(), v, gray)
      ensures LowOk(graph, Tables(), s0.counter, v, lowlink[v], todo - {w})
      ensures old(index.Keys) <= index.Keys && KeepsBut(old(lowlink), lowlink, v)
      decreases Vertices(graph) - index.Keys, 1
    {
      ghost var s, low := Tables(), lowlink[v];
      ReachableFromCalls(graph, s0, s, v, gray, w);
      StrongConnect(w, gray + {v});
      ghost var s1 := Tables();
      AfterCallOk(graph, s0, s, s1, v, gray, low, todo, w, lowlink[w]);
      LowerTo(v, lowlink[w]);
      assert Tables() == s1;
    }

    /** Lower the lowlink of `v` to `low` if that is smaller. */
    method LowerTo(v: Name, low: nat)
      requires v in lowlink
      modifies this`lowlink
      ensures lowlink == old(lowlink)[v := Min(old(lowlink)[v], low)]
      ensures lowlink.Keys == old(lowlink).Keys && KeepsBut(old(lowlink), lowlink, v)
    {
      lowlink := lowlink[v := Min(lowlink[v], low)];
    }

    /** Emit a component when `lowlink` is still at the index of `v`. */
    method FinishCall(v: Name, ghost s0: State, ghost gray: set<Name>)
      requires Inside(graph, s0, Tables(), v, gray) && Base(graph, s0, gray)
      requires v in lowlink && LowOk(graph, Tables(), s0.counter, v, lowlink[v], {})
      modifies this`stack, this`onStack, this`result
      ensures CallOk(graph, s0, Tables(), v, gray, lowlink[v])
    {
      ghost var s := Tables();
      if lowlink[v] == index[v] {
        assert s.stack[..|s0.stack|] == s0.stack;
        var comp := PopDownTo(v, |s0.stack|);
        result := result + [comp];
        PopOk(graph, s0, s, Tables(), v, gray, comp);
      } else {
        KeepOk(graph, s0, s, v, gray, lowlink[v]);
      }
    }

    /** Pop until `v` itself comes off the stack. */
    method PopDownTo(v: Name, ghost base: nat) returns (comp: seq<Name>)
      requires StackOk(Tables()) && base < |stack| && stack[base] == v
      modifies this`stack, this`onStack
      ensures stack == old(stack)[..base]
      ensures forall x :: x in stack <==> x in onStack && onStack[x]
      ensures |comp| == |old(stack)| - base
      ensures forall i :: 0 <= i < |comp| ==> comp[i] == old(stack)[|old(stack)| - 1 - i]
    {
      ghost var all := stack;
      SortedNoDup(Tables());
      comp := [];
      while true
        invariant base < |stack| && stack == all[..|stack|] && |stack| + |comp| == |all|
        invariant forall x :: x in stack <==> x in onStack && onStack[x]
        invariant forall i :: 0 <= i < |comp| ==> comp[i] == all[|all| - 1 - i]
        decreases |stack|
      {
        var w := stack[|stack| - 1];
        ghost var before := stack;
        stack := stack[..|stack| - 1];
        assert before == stack + [w];
        onStack := onStack[w := false];
        comp := comp + [w];
        if w == v {
          break;
        }
      }
    }
  }

  /** The components of any graph, leaves first. */
  method StronglyConnectedComponents(g: Graph) returns (r: seq<seq<Name>>)
    ensures IsDecomposition(g, r)
  {
    var search := new Search(g);
    var todo := g.Keys;
    while todo != {}
      invariant todo <= g.Keys && search.graph == g && search.Valid({})
      invariant g.Keys - todo <= search.index.Keys
      decreases todo
    {
      var v :| v in todo;
      if v !in search.index {
        search.StrongConnect(v, {});
      }
      todo := todo - {v};
    }
    RunOk(g, search.Tables());
    r := search.result;
  }
}
