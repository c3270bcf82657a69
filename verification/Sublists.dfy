/** What filtering a list leaves: which entries, and in which order. */
module Sublists {

  /** The positions are ascending, below `n`, and exactly those in `keep`. */
  ghost predicate Ascending(at: seq<nat>, n: nat, keep: set<nat>) {
    && (forall i, j :: 0 <= i < j < |at| ==> at[i] < at[j])
    && (forall i :: 0 <= i < |at| ==> at[i] < n)
    && (forall i: nat :: i in keep <==> i in at)
  }

  ghost predicate PicksAt<T>(out: seq<T>, s: seq<T>, at: seq<nat>) {
    |out| == |at| && forall i :: 0 <= i < |at| ==> at[i] < |s| && out[i] == s[at[i]]
  }

  /** `out` has the entries of `s` at the positions `keep`, in their order. */
  ghost predicate Sublist<T>(out: seq<T>, s: seq<T>, keep: set<nat>) {
    exists at :: Ascending(at, |s|, keep) && PicksAt(out, s, at)
  }

  lemma SublistEmpty<T>()
    ensures Sublist<T>([], [], {})
  {
    assert Ascending([], 0, {}) && PicksAt<T>([], [], []);
  }

  lemma SublistSkip<T>(out: seq<T>, s: seq<T>, keep: set<nat>, x: T)
    requires Sublist(out, s, keep)
    ensures Sublist(out, s + [x], keep)
  {
    var at: seq<nat> :| Ascending(at, |s|, keep) && PicksAt(out, s, at);
    assert Ascending(at, |s + [x]|, keep) && PicksAt(out, s + [x], at);
  }

  lemma SublistKeep<T>(out: seq<T>, s: seq<T>, keep: set<nat>, x: T)
    requires Sublist(out, s, keep)
    ensures Sublist(out + [x], s + [x], keep + {|s|})
  {
    var at: seq<nat> :| Ascending(at, |s|, keep) && PicksAt(out, s, at);
    var n: nat := |s|;
    var longer: seq<nat> := at + [n];
    forall i | 0 <= i < |longer|
      ensures longer[i] <= n && (i < |at| ==> longer[i] == at[i])
    {
    }
    assert Ascending(longer, |s + [x]|, keep + {|s|});
    assert PicksAt(out + [x], s + [x], longer);
  }

  /** One more entry at the end, kept or not. */
  lemma SublistStep<T>(out: seq<T>, s: seq<T>, keep: set<nat>, more: seq<T>, all: set<nat>)
    requires s != [] && Sublist(out, s[..|s| - 1], keep)
    requires (more == [] && all == keep) || (more == [s[|s| - 1]] && all == keep + {|s| - 1})
    ensures Sublist(out + more, s, all)
  {
    var n := |s| - 1;
    assert s == s[..n] + [s[n]];
    if more == [] {
      SublistSkip(out, s[..n], keep, s[n]);
      assert out + more == out;
    } else {
      SublistKeep(out, s[..n], keep, s[n]);
    }
  }

  /** The positions leave only one such list. */
  lemma SublistUnique<T>(a: seq<T>, b: seq<T>, s: seq<T>, keep: set<nat>)
    requires Sublist(a, s, keep) && Sublist(b, s, keep)
    ensures a == b
  {
    var p :| Ascending(p, |s|, keep) && PicksAt(a, s, p);
    var q :| Ascending(q, |s|, keep) && PicksAt(b, s, q);
    AscendingUnique(p, q, |s|, keep);
  }

  lemma {:induction false} AscendingUnique(p: seq<nat>, q: seq<nat>, n: nat, keep: set<nat>)
    requires Ascending(p, n, keep) && Ascending(q, n, keep)
    ensures p == q
    decreases |p|
  {
    LastIsKept(p, n, keep);
    LastIsKept(q, n, keep);
    if p != [] {
      var i, j := |p| - 1, |q| - 1;
      assert p[i] in q && q[j] in p;
      AscendingFront(p, n, keep);
      AscendingFront(q, n, keep);
      AscendingUnique(p[..i], q[..j], n, keep - {p[i]});
      assert p == p[..i] + [p[i]] && q == q[..j] + [q[j]];
    }
  }

  lemma LastIsKept(p: seq<nat>, n: nat, keep: set<nat>)
    requires Ascending(p, n, keep)
    ensures p != [] ==> p[|p| - 1] in keep
    ensures p == [] <==> keep == {}
  {
    if k :| k in keep {
      assert k in p;
    }
  }

  lemma AscendingFront(p: seq<nat>, n: nat, keep: set<nat>)
    requires p != [] && Ascending(p, n, keep)
    ensures Ascending(p[..|p| - 1], n, keep - {p[|p| - 1]})
  {
    assert p == p[..|p| - 1] + [p[|p| - 1]];
  }
}
