/** Weighted out-edges and sums of weights over sets of edges. */
module EdgeWeights {
  import opened Digraph

  type OutEdges = map<Name, map<Name, nat>>

  type Edge = (Name, Name)

  /** The edges that leave one of `nodes`. */
  function EdgesOf(nodes: set<Name>, out: OutEdges): set<Edge> {
    set u, v | u in nodes && u in out && v in out[u].Keys :: (u, v)
  }

  /** The same edges without weights. */
  function GraphOf(nodes: set<Name>, out: OutEdges): Graph {
    map u | u in nodes && u in out :: out[u].Keys
  }

  function Weight(out: OutEdges, e: Edge): nat {
    if e.0 in out && e.1 in out[e.0] then out[e.0][e.1] else 0
  }

  ghost function Total(out: OutEdges, s: set<Edge>): nat {
    if s == {} then 0 else
      var e :| e in s;
      Weight(out, e) + Total(out, s - {e})
  }

  lemma {:induction false} TotalRemove(out: OutEdges, s: set<Edge>, e: Edge)
    requires e in s
    ensures Total(out, s) == Weight(out, e) + Total(out, s - {e})
    decreases |s|
  {
    var f :| f in s && Total(out, s) == Weight(out, f) + Total(out, s - {f});
    if f != e {
      TotalRemove(out, s - {f}, e);
      TotalRemove(out, s - {e}, f);
      assert s - {f} - {e} == s - {e} - {f};
    }
  }

  lemma TotalAdd(out: OutEdges, s: set<Edge>, e: Edge)
    requires e !in s
    ensures Total(out, s + {e}) == Weight(out, e) + Total(out, s)
  {
    TotalRemove(out, s + {e}, e);
    assert s + {e} - {e} == s;
  }

  lemma {:induction false} TotalUnion(out: OutEdges, a: set<Edge>, b: set<Edge>)
    requires a !! b
    ensures Total(out, a + b) == Total(out, a) + Total(out, b)
    decreases |a|
  {
    if a == {} {
      assert a + b == b;
    } else {
      var e :| e in a;
      TotalUnion(out, a - {e}, b);
      TotalRemove(out, a, e);
      TotalRemove(out, a + b, e);
      assert a + b - {e} == (a - {e}) + b;
    }
  }

  lemma TotalSubset(out: OutEdges, a: set<Edge>, b: set<Edge>)
    requires a <= b
    ensures Total(out, a) <= Total(out, b)
  {
    TotalUnion(out, a, b - a);
    assert a + (b - a) == b;
  }
}
