/** The invariants of Tarjan's algorithm and the proof of each of its steps.

    `State` is a snapshot of the tables the search updates, all but `lowlink`,
    of which a step only ever needs the entry of one vertex. */
module TarjanTheory {
  import opened Basics
  import opened Digraph

  datatype State = State(
    counter: nat,
    stack: seq<Name>,
    onStack: map<Name, bool>,
    index: map<Name, nat>,
    result: seq<seq<Name>>)

  // ---------------------------------------------------------------- what the result promises

  /** `x` is in one of the first `n` components. */
  ghost predicate Among(r: seq<seq<Name>>, n: nat, x: Name) {
    exists j :: 0 <= j < n && j < |r| && x in r[j]
  }

  ghost predicate Together(r: seq<seq<Name>>, u: Name, v: Name) {
    exists i :: 0 <= i < |r| && u in r[i] && v in r[i]
  }

  ghost predicate Disjoint(r: seq<seq<Name>>) {
    && (forall i :: 0 <= i < |r| ==> r[i] != [] && NoDup(r[i]))
    && (forall i, j, x :: 0 <= i < j < |r| && x in r[i] ==> x !in r[j])
  }

  /** Every vertex occurs exactly once, in exactly one component. */
  ghost predicate Partition(g: Graph, r: seq<seq<Name>>) {
    Disjoint(r) && forall x :: x in Vertices(g) <==> Among(r, |r|, x)
  }

  /** An edge never leads to a later component. */
  ghost predicate LeavesFirst(g: Graph, r: seq<seq<Name>>) {
    forall i, x, y :: 0 <= i < |r| && x in r[i] && y in Succ(g, x) ==> Among(r, i + 1, y)
  }

  ghost predicate ExactClasses(g: Graph, r: seq<seq<Name>>) {
    forall u, v :: u in Vertices(g) && v in Vertices(g) ==> (Together(r, u, v) <==> Mutual(g, u, v))
  }

  ghost predicate IsDecomposition(g: Graph, r: seq<seq<Name>>) {
    Partition(g, r) && LeavesFirst(g, r) && ExactClasses(g, r)
  }

  // ---------------------------------------------------------------- invariants of the search

  ghost predicate IndexOk(g: Graph, s: State) {
    s.index.Keys <= Vertices(g) && forall x :: x in s.index ==> s.index[x] < s.counter
  }

  /** The stack is sorted by index and `onStack` mirrors it exactly. */
  ghost predicate StackOk(s: State) {
    && (forall x :: x in s.stack ==> x in s.index)
    && (forall i, j :: 0 <= i < j < |s.stack| ==> s.index[s.stack[i]] < s.index[s.stack[j]])
    && (forall x :: x in s.stack <==> x in s.onStack && s.onStack[x])
  }

  /** The components emitted so far: disjoint, each strongly connected, and
      closed under successors once the earlier ones are taken along. */
  ghost predicate CompsOk(g: Graph, s: State) {
    && Disjoint(s.result)
    && LeavesFirst(g, s.result)
    && (forall i, x :: 0 <= i < |s.result| && x in s.result[i] ==> x in s.index && x !in s.stack)
    && (forall x :: x in s.index && x !in s.stack ==> Among(s.result, |s.result|, x))
    && (forall i, x, y :: 0 <= i < |s.result| && x in s.result[i] && y in s.result[i] ==> Reach(g, x, y))
  }

  /** A vertex whose call has returned has only visited successors. `gray` holds
      the vertices whose call is still running. */
  ghost predicate DoneOk(g: Graph, s: State, gray: set<Name>) {
    && (forall x :: x in gray ==> x in s.stack)
    && forall x, y :: x in s.index && x !in gray && y in Succ(g, x) ==> y in s.index
  }

  /** `y` reaches a running call that is not above it on the stack. */
  ghost predicate LinkedDown(g: Graph, s: State, gray: set<Name>, y: Name)
    requires y in s.index
  {
    exists x :: x in gray && x in s.index && s.index[x] <= s.index[y] && Reach(g, y, x)
  }

  ghost predicate StackLinked(g: Graph, s: State, gray: set<Name>)
    requires StackOk(s)
  {
    && (forall x, y :: x in gray && x in s.index && y in s.stack && s.index[x] <= s.index[y] ==> Reach(g, x, y))
    && (forall y {:trigger LinkedDown(g, s, gray, y)} :: y in s.stack ==> LinkedDown(g, s, gray, y))
  }

  ghost predicate Inv(g: Graph, s: State, gray: set<Name>) {
    IndexOk(g, s) && StackOk(s) && CompsOk(g, s) && DoneOk(g, s, gray) && StackLinked(g, s, gray)
  }

  /** What a running call still needs to know of the tables it started from. */
  ghost predicate Base(g: Graph, s: State, gray: set<Name>) {
    IndexOk(g, s) && StackOk(s) && (forall x :: x in gray ==> x in s.stack) && StackLinked(g, s, gray)
  }

  /** What a call leaves alone: it only visits, pushes and emits. */
  ghost predicate Extends(s0: State, s1: State) {
    && (forall x :: x in s0.index ==> x in s1.index && s1.index[x] == s0.index[x])
    && (forall x :: x in s1.index && x !in s0.index ==> s0.counter <= s1.index[x])
    && (forall x :: x in s0.index ==> (x in s0.stack <==> x in s1.stack))
    && s0.stack <= s1.stack
    && s0.result <= s1.result
    && s0.counter <= s1.counter
  }

  /** `low` is the index of a stack vertex that `v` reaches. */
  ghost predicate Attained(g: Graph, s: State, v: Name, low: nat) {
    exists y :: y in s.stack && y in s.index && s.index[y] == low && Reach(g, v, y)
  }

  /** `low` bounds the index of every stack vertex older than `floor` that an
      edge from a stack vertex at or above `floor` leads to, except for the
      edges `v -> y` with `y` in `todo`. */
  ghost predicate LowBounds(g: Graph, s: State, floor: nat, v: Name, low: nat, todo: set<Name>) {
    forall x, y :: x in s.stack && y in s.stack && x in s.index && y in s.index && y in Succ(g, x)
                   && s.index[y] < floor <= s.index[x]
      ==> low <= s.index[y] || (x == v && y in todo)
  }

  /** What the call of `v`, made in `s0`, has achieved in `s1`; `low` is its lowlink. */
  ghost predicate CallOk(g: Graph, s0: State, s1: State, v: Name, gray: set<Name>, low: nat) {
    && Inv(g, s1, gray)
    && Extends(s0, s1)
    && v in s1.index && s0.counter <= s1.index[v] && low <= s1.index[v]
    && (v in s1.stack ==> Attained(g, s1, v, low))
    && (v !in s1.stack ==> low == s1.index[v])
    && LowBounds(g, s1, s0.counter, v, low, {})
  }

  /** Inside the call of `v`: the tables. */
  ghost predicate Inside(g: Graph, s0: State, s: State, v: Name, gray: set<Name>) {
    && v !in s0.index && v !in gray
    && (forall x :: x in gray ==> x in s.index && s.index[x] < s0.counter)
    && Inv(g, s, gray + {v})
    && Extends(s0, s)
    && |s0.stack| < |s.stack| && s.stack[|s0.stack|] == v
    && s.index[v] == s0.counter
  }

  /** Inside the call of `v`: its lowlink, with the successors in `todo` still to come. */
  ghost predicate LowOk(g: Graph, s: State, floor: nat, v: Name, low: nat, todo: set<Name>) {
    && low <= floor
    && Attained(g, s, v, low)
    && LowBounds(g, s, floor, v, low, todo)
    && forall y :: y in Succ(g, v) && y !in todo ==> y in s.index
  }

  // ---------------------------------------------------------------- entering a call

  function Enter(s: State, v: Name): State {
    s.(index := s.index[v := s.counter], counter := s.counter + 1,
       stack := s.stack + [v], onStack := s.onStack[v := true])
  }

  lemma EnterStack(g: Graph, s: State, v: Name)
    requires IndexOk(g, s) && StackOk(s) && v in Vertices(g) && v !in s.index
    ensures IndexOk(g, Enter(s, v)) && StackOk(Enter(s, v)) && Extends(s, Enter(s, v))
  {
    var t := Enter(s, v);
    forall x ensures x in t.stack <==> x == v || x in s.stack { assert t.stack[|s.stack|] == v; }
  }

  lemma EnterComps(g: Graph, s: State, v: Name, gray: set<Name>)
    requires IndexOk(g, s) && CompsOk(g, s) && DoneOk(g, s, gray) && v !in s.index
    ensures CompsOk(g, Enter(s, v)) && DoneOk(g, Enter(s, v), gray + {v})
  {
  }

  lemma EnterLinked(g: Graph, s: State, v: Name, gray: set<Name>)
    requires IndexOk(g, s) && StackOk(s) && DoneOk(g, s, gray) && StackLinked(g, s, gray) && v !in s.index
    requires StackOk(Enter(s, v))
    requires forall x :: x in gray ==> Reach(g, x, v)
    ensures StackLinked(g, Enter(s, v), gray + {v})
  {
    var t := Enter(s, v);
    ReachSelf(g, v);
    forall y | y in t.stack
      ensures LinkedDown(g, t, gray + {v}, y)
    {
      if y != v {
        assert LinkedDown(g, s, gray, y);
        var x :| x in gray && x in s.index && s.index[x] <= s.index[y] && Reach(g, y, x);
        assert x in gray + {v};
      }
    }
  }

  lemma EnterOk(g: Graph, s: State, v: Name, gray: set<Name>)
    requires Inv(g, s, gray) && v in Vertices(g) && v !in s.index
    requires forall x :: x in gray ==> Reach(g, x, v)
    ensures Inside(g, s, Enter(s, v), v, gray)
    ensures LowOk(g, Enter(s, v), s.counter, v, s.counter, Succ(g, v))
  {
    var t := Enter(s, v);
    EnterStack(g, s, v);
    EnterComps(g, s, v, gray);
    EnterLinked(g, s, v, gray);
    ReachSelf(g, v);
    assert v in t.stack by { assert t.stack[|s.stack|] == v; }
    assert Attained(g, t, v, s.counter);
  }

  // ---------------------------------------------------------------- handling one successor

  lemma ExtendsTrans(a: State, b: State, c: State)
    requires Extends(a, b) && Extends(b, c)
    ensures Extends(a, c)
  {
  }

  /** The successor was already visited: a back edge if it is on the stack,
      otherwise an edge into an emitted component. */
  lemma VisitedOk(g: Graph, s: State, floor: nat, v: Name, low: nat, todo: set<Name>, w: Name)
    requires LowOk(g, s, floor, v, low, todo)
    requires w in Succ(g, v) && w in s.index
    ensures w in s.stack ==> LowOk(g, s, floor, v, Min(low, s.index[w]), todo - {w})
    ensures w !in s.stack ==> LowOk(g, s, floor, v, low, todo - {w})
  {
    ReachEdge(g, v, w);
  }

  lemma AttainedVia(g: Graph, s: State, v: Name, w: Name, low: nat)
    requires w in Succ(g, v) && Attained(g, s, w, low)
    ensures Attained(g, s, v, low)
  {
    var y :| y in s.stack && y in s.index && s.index[y] == low && Reach(g, w, y);
    ReachFromEdge(g, v, w, y);
  }

  lemma AttainedLater(g: Graph, s: State, s1: State, v: Name, low: nat)
    requires Attained(g, s, v, low) && Extends(s, s1)
    ensures Attained(g, s1, v, low)
  {
  }

  lemma BoundsAfterCall(g: Graph, floor: nat, s: State, s1: State, v: Name, low: nat, todo: set<Name>, w: Name, lowW: nat)
    requires Extends(s, s1) && floor <= s.counter && w !in s.index
    requires forall x :: x in s.index ==> s.index[x] < s.counter
    requires LowBounds(g, s, floor, v, low, todo)
    requires LowBounds(g, s1, s.counter, w, lowW, {})
    ensures LowBounds(g, s1, floor, v, Min(low, lowW), todo - {w})
  {
    forall x, y | x in s1.stack && y in s1.stack && x in s1.index && y in s1.index && y in Succ(g, x)
                  && s1.index[y] < floor <= s1.index[x]
      ensures Min(low, lowW) <= s1.index[y] || (x == v && y in todo - {w})
    {
      assert y in s.index && y in s.stack;
      if s1.index[x] < s.counter {
        assert x in s.index && x in s.stack;
      }
    }
  }

  lemma AfterCallOk(g: Graph, s0: State, s: State, s1: State, v: Name, gray: set<Name>, low: nat, todo: set<Name>, w: Name, lowW: nat)
    requires Inside(g, s0, s, v, gray) && LowOk(g, s, s0.counter, v, low, todo)
    requires w in Succ(g, v) && w !in s.index
    requires CallOk(g, s, s1, w, gray + {v}, lowW)
    ensures Inside(g, s0, s1, v, gray)
    ensures LowOk(g, s1, s0.counter, v, Min(low, lowW), todo - {w})
  {
    ExtendsTrans(s0, s, s1);
    AttainedLater(g, s, s1, v, low);
    BoundsAfterCall(g, s0.counter, s, s1, v, low, todo, w, lowW);
    if lowW < low {
      AttainedVia(g, s1, v, w, lowW);
    }
  }

  /** Every running call reaches the vertex about to be called. */
  lemma ReachableFromCalls(g: Graph, s0: State, s: State, v: Name, gray: set<Name>, w: Name)
    requires Inside(g, s0, s, v, gray) && w in Succ(g, v)
    ensures w in Vertices(g)
    ensures forall x :: x in gray + {v} ==> Reach(g, x, w)
  {
    assert v in s.stack;
    forall x | x in gray + {v}
      ensures Reach(g, x, w)
    {
      assert s.index[x] <= s.index[v];
      ReachThenEdge(g, x, v, w);
    }
  }

  // ---------------------------------------------------------------- leaving a call

  /** On the stack, the older part is told from the newer one by the index. */
  lemma OlderPart(g: Graph, s0: State, s: State, x: Name)
    requires IndexOk(g, s0) && StackOk(s0) && Extends(s0, s) && x in s.stack && x in s.index
    ensures x in s0.stack <==> s.index[x] < s0.counter
  {
  }

  /** A vertex that stays on the stack below `v` hands its link on to an older call. */
  lemma KeepLinked(g: Graph, s0: State, s: State, v: Name, gray: set<Name>, low: nat, y: Name)
    requires Inside(g, s0, s, v, gray) && Base(g, s0, gray)
    requires LowOk(g, s, s0.counter, v, low, {}) && low < s0.counter
    requires y in s.stack
    ensures LinkedDown(g, s, gray, y)
  {
    assert LinkedDown(g, s, gray + {v}, y);
    var x :| x in gray + {v} && x in s.index && s.index[x] <= s.index[y] && Reach(g, y, x);
    if x == v {
      var z :| z in s.stack && z in s.index && s.index[z] == low && Reach(g, v, z);
      OlderPart(g, s0, s, z);
      assert LinkedDown(g, s0, gray, z);
      var x' :| x' in gray && x' in s0.index && s0.index[x'] <= s0.index[z] && Reach(g, z, x');
      ReachTrans(g, y, v, z);
      ReachTrans(g, y, z, x');
    }
  }

  lemma KeepDone(g: Graph, s: State, floor: nat, v: Name, gray: set<Name>, low: nat)
    requires DoneOk(g, s, gray + {v}) && LowOk(g, s, floor, v, low, {})
    ensures DoneOk(g, s, gray)
  {
  }

  lemma KeepOk(g: Graph, s0: State, s: State, v: Name, gray: set<Name>, low: nat)
    requires Inside(g, s0, s, v, gray) && Base(g, s0, gray)
    requires LowOk(g, s, s0.counter, v, low, {}) && low < s0.counter
    ensures CallOk(g, s0, s, v, gray, low)
  {
    assert v in s.stack;
    KeepDone(g, s, s0.counter, v, gray, low);
    forall y | y in s.stack
      ensures LinkedDown(g, s, gray, y)
    {
      KeepLinked(g, s0, s, v, gray, low, y);
    }
    forall x | x in gray
      ensures x in gray + {v}
    {
    }
    assert StackLinked(g, s, gray);
  }

  /** An edge out of an emitted component ends in an emitted component. */
  lemma EmittedClosed(g: Graph, s: State, x: Name, y: Name)
    requires CompsOk(g, s) && x in s.index && x !in s.stack && y in Succ(g, x)
    ensures y in s.index && y !in s.stack
  {
  }

  /** With `low` at the index of `v`, no edge leads from the popped vertices or
      the emitted ones back to what stays on the stack. */
  lemma NoWayDown(g: Graph, s0: State, s: State, v: Name, gray: set<Name>, x: Name, y: Name)
    requires Inside(g, s0, s, v, gray) && Base(g, s0, gray)
    requires LowOk(g, s, s0.counter, v, s0.counter, {})
    requires x in s.index && x !in s0.stack && y in Succ(g, x)
    ensures y in s.index && y !in s0.stack
  {
    if x in s.stack {
      OlderPart(g, s0, s, x);
      assert x !in gray;
      assert y in s.index;
      if y in s.stack {
        OlderPart(g, s0, s, y);
      }
    } else {
      EmittedClosed(g, s, x, y);
    }
  }

  /** The vertices about to be popped reach `v` and are reached from it. */
  lemma PoppedMutual(g: Graph, s0: State, s: State, v: Name, gray: set<Name>, y: Name)
    requires Inside(g, s0, s, v, gray) && Base(g, s0, gray)
    requires LowOk(g, s, s0.counter, v, s0.counter, {})
    requires y in s.stack && y !in s0.stack
    ensures Mutual(g, v, y)
  {
    OlderPart(g, s0, s, y);
    assert v in s.stack;
    assert v in gray + {v};
    assert LinkedDown(g, s, gray + {v}, y);
    var x :| x in gray + {v} && x in s.index && s.index[x] <= s.index[y] && Reach(g, y, x);
    if x != v {
      assert x in s0.stack;
      var above := set z | z in s.index && z !in s0.stack;
      forall a, b | a in above && b in Succ(g, a)
        ensures b in above
      {
        NoWayDown(g, s0, s, v, gray, a, b);
      }
      ClosedReach(g, above, y, x);
    }
  }

  /** `t` is `s` after the stack has been popped down to what it was in `s0`. */
  ghost predicate Popped(s0: State, s: State, t: State, comp: seq<Name>) {
    && t.index == s.index && t.counter == s.counter
    && t.stack == s0.stack
    && (forall x :: x in t.stack <==> x in t.onStack && t.onStack[x])
    && t.result == s.result + [comp]
    && |comp| == |s.stack| - |s0.stack|
    && forall i :: 0 <= i < |comp| ==> comp[i] == s.stack[|s.stack| - 1 - i]
  }

  lemma SortedNoDup(s: State)
    requires StackOk(s)
    ensures NoDup(s.stack)
  {
  }

  lemma PoppedMembers(s0: State, s: State, t: State, comp: seq<Name>)
    requires s0.stack <= s.stack && |s0.stack| < |s.stack| && NoDup(s.stack)
    requires Popped(s0, s, t, comp)
    ensures NoDup(comp) && comp != []
    ensures forall x :: x in comp <==> x in s.stack && x !in s0.stack
  {
    var n, m := |s.stack|, |s0.stack|;
    forall p | 0 <= p < n
      ensures s.stack[p] in comp <==> m <= p
      ensures s.stack[p] in s0.stack <==> p < m
    {
      if p < m {
        assert s0.stack[p] == s.stack[p];
      } else {
        assert comp[n - 1 - p] == s.stack[p];
      }
    }
    forall x | x in comp
      ensures x in s.stack
    {
      var i :| 0 <= i < |comp| && comp[i] == x;
      assert s.stack[n - 1 - i] == x;
    }
    forall x | x in s.stack
      ensures x in comp <==> x !in s0.stack
    {
      var p :| 0 <= p < n && s.stack[p] == x;
    }
  }

  ghost predicate Members(s0: State, s: State, comp: seq<Name>) {
    forall x :: x in comp <==> x in s.stack && x !in s0.stack
  }

  lemma PopDisjoint(g: Graph, s0: State, s: State, comp: seq<Name>)
    requires CompsOk(g, s) && comp != [] && NoDup(comp) && Members(s0, s, comp)
    ensures Disjoint(s.result + [comp])
  {
  }

  lemma AmongLonger(r: seq<seq<Name>>, comp: seq<Name>, n: nat, x: Name)
    requires Among(r, n, x)
    ensures Among(r + [comp], n, x)
  {
    var j :| 0 <= j < n && j < |r| && x in r[j];
    assert x in (r + [comp])[j];
  }

  lemma PopCovers(g: Graph, s0: State, s: State, comp: seq<Name>, x: Name)
    requires CompsOk(g, s) && Members(s0, s, comp)
    requires x in s.index && x !in s0.stack
    ensures Among(s.result + [comp], |s.result| + 1, x)
  {
    if x in s.stack {
      assert x in (s.result + [comp])[|s.result|];
    } else {
      AmongLonger(s.result, comp, |s.result|, x);
    }
  }

  lemma PopLeavesFirst(g: Graph, s0: State, s: State, v: Name, gray: set<Name>, comp: seq<Name>)
    requires Inside(g, s0, s, v, gray) && Base(g, s0, gray) && Members(s0, s, comp)
    requires LowOk(g, s, s0.counter, v, s0.counter, {})
    ensures LeavesFirst(g, s.result + [comp])
  {
    var r := s.result + [comp];
    forall i, x, y | 0 <= i < |r| && x in r[i] && y in Succ(g, x)
      ensures Among(r, i + 1, y)
    {
      if i < |s.result| {
        assert x in s.result[i];
        AmongLonger(s.result, comp, i + 1, y);
      } else {
        NoWayDown(g, s0, s, v, gray, x, y);
        PopCovers(g, s0, s, comp, y);
      }
    }
  }

  lemma PopStrong(g: Graph, s0: State, s: State, v: Name, gray: set<Name>, comp: seq<Name>)
    requires Inside(g, s0, s, v, gray) && Base(g, s0, gray) && Members(s0, s, comp)
    requires LowOk(g, s, s0.counter, v, s0.counter, {})
    ensures forall x, y :: x in comp && y in comp ==> Reach(g, x, y)
  {
    forall x | x in comp
      ensures Mutual(g, v, x)
    {
      PoppedMutual(g, s0, s, v, gray, x);
    }
    forall x, y | x in comp && y in comp
      ensures Reach(g, x, y)
    {
      ReachTrans(g, x, v, y);
    }
  }

  lemma PopComps(g: Graph, s0: State, s: State, t: State, comp: seq<Name>)
    requires CompsOk(g, s) && Popped(s0, s, t, comp) && Members(s0, s, comp)
    requires s0.stack <= s.stack
    requires Disjoint(t.result) && LeavesFirst(g, t.result)
    requires forall x :: x in s.stack ==> x in s.index
    requires forall x, y :: x in comp && y in comp ==> Reach(g, x, y)
    ensures CompsOk(g, t)
  {
    forall x | x in t.index && x !in t.stack
      ensures Among(t.result, |t.result|, x)
    {
      PopCovers(g, s0, s, comp, x);
    }
    forall i, x | 0 <= i < |t.result| && x in t.result[i]
      ensures x in t.index && x !in t.stack
    {
      if i < |s.result| {
        assert x in s.result[i];
      } else {
        assert x in comp;
      }
    }
    forall i, x, y | 0 <= i < |t.result| && x in t.result[i] && y in t.result[i]
      ensures Reach(g, x, y)
    {
      if i < |s.result| {
        assert t.result[i] == s.result[i];
      }
    }
  }

  lemma PopCompsOk(g: Graph, s0: State, s: State, t: State, v: Name, gray: set<Name>, comp: seq<Name>)
    requires Inside(g, s0, s, v, gray) && Base(g, s0, gray) && Popped(s0, s, t, comp)
    requires LowOk(g, s, s0.counter, v, s0.counter, {})
    ensures Members(s0, s, comp) && CompsOk(g, t)
  {
    SortedNoDup(s);
    PoppedMembers(s0, s, t, comp);
    PopDisjoint(g, s0, s, comp);
    PopLeavesFirst(g, s0, s, v, gray, comp);
    PopStrong(g, s0, s, v, gray, comp);
    PopComps(g, s0, s, t, comp);
  }

  lemma PopTables(g: Graph, s0: State, s: State, t: State, comp: seq<Name>)
    requires IndexOk(g, s) && StackOk(s0) && Extends(s0, s) && Popped(s0, s, t, comp)
    ensures IndexOk(g, t) && StackOk(t) && Extends(s0, t)
  {
  }

  lemma PopLinked(g: Graph, s0: State, t: State, gray: set<Name>)
    requires Base(g, s0, gray) && StackOk(t) && t.stack == s0.stack
    requires forall x :: x in s0.index ==> x in t.index && t.index[x] == s0.index[x]
    ensures StackLinked(g, t, gray)
  {
    forall y | y in t.stack
      ensures LinkedDown(g, t, gray, y)
    {
      assert LinkedDown(g, s0, gray, y);
      var x :| x in gray && x in s0.index && s0.index[x] <= s0.index[y] && Reach(g, y, x);
    }
  }

  lemma PopDone(g: Graph, s0: State, s: State, t: State, v: Name, gray: set<Name>, comp: seq<Name>)
    requires Base(g, s0, gray) && DoneOk(g, s, gray + {v}) && Popped(s0, s, t, comp)
    requires forall y :: y in Succ(g, v) ==> y in s.index
    ensures DoneOk(g, t, gray)
  {
  }

  lemma PopOk(g: Graph, s0: State, s: State, t: State, v: Name, gray: set<Name>, comp: seq<Name>)
    requires Inside(g, s0, s, v, gray) && Base(g, s0, gray) && Popped(s0, s, t, comp)
    requires LowOk(g, s, s0.counter, v, s0.counter, {})
    ensures CallOk(g, s0, t, v, gray, s0.counter)
  {
    PopCompsOk(g, s0, s, t, v, gray, comp);
    PopTables(g, s0, s, t, comp);
    PopLinked(g, s0, t, gray);
    PopDone(g, s0, s, t, v, gray, comp);
    assert v !in t.stack;
  }

  // ---------------------------------------------------------------- the whole run

  lemma AmongSame(r: seq<seq<Name>>, i: nat, j: nat, x: Name)
    requires Disjoint(r) && i < |r| && x in r[i] && Among(r, j, x)
    ensures i < j
  {
  }

  lemma AmongClosed(g: Graph, r: seq<seq<Name>>, n: nat, a: Name, b: Name)
    requires LeavesFirst(g, r) && Among(r, n, a) && b in Succ(g, a)
    ensures Among(r, n, b)
  {
  }

  /** A walk from a component only meets that component and earlier ones. */
  lemma ReachStaysAmong(g: Graph, r: seq<seq<Name>>, i: nat, u: Name, v: Name)
    requires Partition(g, r) && LeavesFirst(g, r)
    requires i < |r| && u in r[i] && Reach(g, u, v)
    ensures Among(r, i + 1, v)
  {
    var s := set x | x in Vertices(g) && Among(r, i + 1, x);
    forall a, b | a in s && b in Succ(g, a)
      ensures b in s
    {
      AmongClosed(g, r, i + 1, a, b);
      assert Among(r, |r|, b);
    }
    assert Among(r, |r|, u) && Among(r, i + 1, u);
    ClosedReach(g, s, u, v);
  }

  lemma Exact(g: Graph, r: seq<seq<Name>>)
    requires Partition(g, r) && LeavesFirst(g, r)
    requires forall i, x, y :: 0 <= i < |r| && x in r[i] && y in r[i] ==> Reach(g, x, y)
    ensures ExactClasses(g, r)
  {
    forall u, v | u in Vertices(g) && v in Vertices(g)
      ensures Together(r, u, v) <==> Mutual(g, u, v)
    {
      if Mutual(g, u, v) {
        assert Among(r, |r|, u) && Among(r, |r|, v);
        var i :| 0 <= i < |r| && u in r[i];
        var j :| 0 <= j < |r| && v in r[j];
        ReachStaysAmong(g, r, i, u, v);
        ReachStaysAmong(g, r, j, v, u);
        AmongSame(r, j, i + 1, v);
        AmongSame(r, i, j + 1, u);
      }
    }
  }

  /** When no call is running any more and every key was visited, the emitted
      components are the answer. */
  lemma RunOk(g: Graph, s: State)
    requires Inv(g, s, {}) && g.Keys <= s.index.Keys
    ensures IsDecomposition(g, s.result)
  {
    forall y | y in s.index
      ensures y !in s.stack
    {
      assert !LinkedDown(g, s, {}, y);
    }
    forall x | x in Vertices(g)
      ensures x in s.index
    {
      if x !in g.Keys {
        var u :| u in g.Keys && x in g[u];
        assert x in Succ(g, u);
      }
    }
    Exact(g, s.result);
  }
}
