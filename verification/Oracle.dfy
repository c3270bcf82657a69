/** The two ceilings computed from the gold set, and how far they are ceilings. */
module Oracle {
  import opened Basics
  import opened Sublists
  import opened Fusion
  import opened Metrics

  /** The ids of a ranked list, without their scores. */
  function Ids(list: Ranked): seq<Id> {
    seq(|list|, i requires 0 <= i < |list| => list[i].0)
  }

  function Filter(s: seq<Id>, keep: set<Id>): seq<Id> {
    if s == [] then []
    else Filter(s[..|s| - 1], keep) + (if s[|s| - 1] in keep then [s[|s| - 1]] else [])
  }

  function Without(s: seq<Id>, drop: set<Id>): seq<Id> {
    if s == [] then []
    else Without(s[..|s| - 1], drop) + (if s[|s| - 1] in drop then [] else [s[|s| - 1]])
  }

  /** Relevant ids first, the order otherwise kept. */
  function RelevantFirst(pool: seq<Id>, rel: set<Id>): seq<Id> {
    Filter(pool, rel) + Without(pool, rel)
  }

  /** The fixed-k ceiling: reorder perfectly, then cut to `n`. */
  function OracleRerank(pool: seq<Id>, rel: set<Id>, n: nat): seq<Id> {
    Take(RelevantFirst(pool, rel), n)
  }

  /** The dynamic-k ceiling: exactly the relevant ids of the pool. */
  function OracleDyn(pool: seq<Id>, rel: set<Id>): seq<Id> {
    Filter(pool, rel)
  }

  /** A list a system could return from the pool: no id twice, none from elsewhere. */
  ghost predicate DrawnFrom(s: seq<Id>, pool: seq<Id>) {
    NoDup(s) && forall x :: x in s ==> x in pool
  }

  // ---------------------------------------------------------------- filters

  lemma LastIsNew(s: seq<Id>)
    requires NoDup(s) && s != []
    ensures NoDup(s[..|s| - 1]) && s[|s| - 1] !in s[..|s| - 1]
  {
  }

  lemma {:induction false} FilterMembers(s: seq<Id>, keep: set<Id>)
    ensures forall x :: x in Filter(s, keep) <==> x in s && x in keep
    ensures |Filter(s, keep)| == Hits(s, keep)
    decreases |s|
  {
    if s != [] {
      var n := |s| - 1;
      FilterMembers(s[..n], keep);
      assert s == s[..n] + [s[n]];
    }
  }

  lemma {:induction false} FilterDistinct(s: seq<Id>, keep: set<Id>)
    requires NoDup(s)
    ensures NoDup(Filter(s, keep))
    decreases |s|
  {
    if s != [] {
      var n := |s| - 1;
      FilterDistinct(s[..n], keep);
      FilterMembers(s[..n], keep);
      LastIsNew(s);
    }
  }

  lemma {:induction false} WithoutMembers(s: seq<Id>, drop: set<Id>)
    ensures forall x :: x in Without(s, drop) <==> x in s && x !in drop
    ensures |Without(s, drop)| + Hits(s, drop) == |s|
    decreases |s|
  {
    if s != [] {
      var n := |s| - 1;
      WithoutMembers(s[..n], drop);
      assert s == s[..n] + [s[n]];
    }
  }

  lemma {:induction false} WithoutDistinct(s: seq<Id>, drop: set<Id>)
    requires NoDup(s)
    ensures NoDup(Without(s, drop))
    decreases |s|
  {
    if s != [] {
      var n := |s| - 1;
      WithoutDistinct(s[..n], drop);
      WithoutMembers(s[..n], drop);
      LastIsNew(s);
    }
  }

  lemma AllRelevantHits(s: seq<Id>, rel: set<Id>)
    requires forall x :: x in s ==> x in rel
    ensures Hits(s, rel) == |s|
  {
  }

  lemma {:induction false} NoneRelevantHits(s: seq<Id>, rel: set<Id>)
    requires forall x :: x in s ==> x !in rel
    ensures Hits(s, rel) == 0
    decreases |s|
  {
    if s != [] {
      assert s[|s| - 1] in s;
      NoneRelevantHits(s[..|s| - 1], rel);
    }
  }

  lemma DistinctTake(s: seq<Id>, k: nat)
    requires NoDup(s)
    ensures NoDup(Take(s, k))
    ensures forall x :: x in Take(s, k) ==> x in s
  {
  }

  ghost function PlacesIn(s: seq<Id>, keep: set<Id>): set<nat> {
    set i: nat | i < |s| && s[i] in keep
  }

  ghost function PlacesOut(s: seq<Id>, drop: set<Id>): set<nat> {
    set i: nat | i < |s| && s[i] !in drop
  }

  /** What is kept stays in its order. */
  lemma {:induction false} FilterInOrder(s: seq<Id>, keep: set<Id>)
    ensures Sublist(Filter(s, keep), s, PlacesIn(s, keep))
    decreases |s|
  {
    if s == [] {
      SublistEmpty<Id>();
      assert PlacesIn(s, keep) == {};
    } else {
      var n := |s| - 1;
      FilterInOrder(s[..n], keep);
      var more := if s[n] in keep then [s[n]] else [];
      assert PlacesIn(s, keep) == PlacesIn(s[..n], keep) + (if more == [] then {} else {n});
      SublistStep(Filter(s[..n], keep), s, PlacesIn(s[..n], keep), more, PlacesIn(s, keep));
    }
  }

  lemma {:induction false} WithoutInOrder(s: seq<Id>, drop: set<Id>)
    ensures Sublist(Without(s, drop), s, PlacesOut(s, drop))
    decreases |s|
  {
    if s == [] {
      SublistEmpty<Id>();
      assert PlacesOut(s, drop) == {};
    } else {
      var n := |s| - 1;
      WithoutInOrder(s[..n], drop);
      var more := if s[n] in drop then [] else [s[n]];
      assert PlacesOut(s, drop) == PlacesOut(s[..n], drop) + (if more == [] then {} else {n});
      SublistStep(Without(s[..n], drop), s, PlacesOut(s[..n], drop), more, PlacesOut(s, drop));
    }
  }

  /** The fixed-k list is cut from two parts joined: the relevant ids of the pool
      and the others, each in the order of the pool. */
  lemma OracleIsStable(pool: seq<Id>, rel: set<Id>, n: nat) returns (front: seq<Id>, back: seq<Id>)
    ensures Sublist(front, pool, PlacesIn(pool, rel)) && Sublist(back, pool, PlacesOut(pool, rel))
    ensures |front + back| == |pool|
    ensures OracleRerank(pool, rel, n) == if n <= |pool| then (front + back)[..n] else front + back
    ensures OracleDyn(pool, rel) == front
  {
    front, back := Filter(pool, rel), Without(pool, rel);
    FilterInOrder(pool, rel);
    WithoutInOrder(pool, rel);
    FilterMembers(pool, rel);
    WithoutMembers(pool, rel);
  }

  /** The reordering is a permutation of the pool with all its hits in front. */
  lemma RelevantFirstShape(pool: seq<Id>, rel: set<Id>)
    requires NoDup(pool)
    ensures NoDup(RelevantFirst(pool, rel)) && |RelevantFirst(pool, rel)| == |pool|
    ensures forall x :: x in RelevantFirst(pool, rel) <==> x in pool
    ensures TopRelevant(RelevantFirst(pool, rel), rel, Hits(pool, rel))
    ensures forall i :: Hits(pool, rel) <= i < |pool| ==> RelevantFirst(pool, rel)[i] !in rel
  {
    FilterMembers(pool, rel);
    FilterDistinct(pool, rel);
    WithoutMembers(pool, rel);
    WithoutDistinct(pool, rel);
    var f, w := Filter(pool, rel), Without(pool, rel);
    var all := f + w;
    forall i | 0 <= i < |all|
      ensures i < |f| ==> all[i] in rel
      ensures i >= |f| ==> all[i] !in rel
    {
      if i < |f| {
        assert all[i] == f[i] && f[i] in f;
      } else {
        assert all[i] == w[i - |f|] && w[i - |f|] in w;
      }
    }
    forall i, j | 0 <= i < j < |all|
      ensures all[i] != all[j]
    {
      if i < |f| && j < |f| {
        assert f[i] != f[j];
      } else if i >= |f| {
        assert w[i - |f|] != w[j - |f|];
      }
    }
  }

  // ---------------------------------------------------------------- lists with their hits in front

  /** The first `h` entries are relevant and no other is. */
  ghost predicate HitsInFront(s: seq<Id>, rel: set<Id>, h: nat) {
    h <= |s| && forall i :: 0 <= i < |s| ==> (s[i] in rel <==> i < h)
  }

  lemma FrontHits(s: seq<Id>, rel: set<Id>, h: nat)
    requires HitsInFront(s, rel, h)
    ensures Hits(s, rel) == h && TopRelevant(s, rel, h)
  {
    assert s == s[..h] + s[h..];
    HitsConcat(s[..h], s[h..], rel);
    forall x | x in s[..h]
      ensures x in rel
    {
    }
    forall x | x in s[h..]
      ensures x !in rel
    {
      var i :| 0 <= i < |s[h..]| && s[h..][i] == x;
      assert s[h + i] == x;
    }
    AllRelevantHits(s[..h], rel);
    NoneRelevantHits(s[h..], rel);
  }

  lemma FrontTake(s: seq<Id>, rel: set<Id>, h: nat, k: nat)
    requires HitsInFront(s, rel, h)
    ensures HitsInFront(Take(s, k), rel, Min(h, k))
  {
  }

  /** What all the ceilings rest on: with its hits in front, and at least as many
      of them among the first `k`, a list is at least as good by every measure. */
  lemma FrontBeats(best: seq<Id>, h: nat, other: seq<Id>, rel: set<Id>, k: nat, d: nat -> real)
    requires Discount(d) && HitsInFront(best, rel, h)
    requires Hits(Take(other, k), rel) <= Min(h, k)
    ensures RecallAt(other, rel, k) <= RecallAt(best, rel, k)
    ensures Ndcg(other, rel, k, d) <= Ndcg(best, rel, k, d)
  {
    var t, u := Take(best, k), Take(other, k);
    FrontTake(best, rel, h, k);
    FrontHits(t, rel, Min(h, k));
    DcgBound(t, rel, d);
    DcgBound(u, rel, d);
    IdcgGrows(Hits(u, rel), Min(h, k), d);
    var m := Min(|rel|, k);
    IdcgGrows(0, m, d);
    if rel != {} {
      QuotientOrder(Hits(u, rel) as real, Hits(t, rel) as real, |rel| as real);
    }
    if m > 0 {
      QuotientOrder(Dcg(u, rel, d), Dcg(t, rel, d), Idcg(m, d));
    }
  }

  lemma ReciprocalAtMostOne(i: nat)
    ensures 1.0 / (i as real + 1.0) <= 1.0
  {
  }

  lemma FrontBeatsReciprocal(best: seq<Id>, h: nat, other: seq<Id>, rel: set<Id>)
    requires HitsInFront(best, rel, h)
    requires h == 0 ==> forall x :: x in other ==> x !in rel
    ensures Reciprocal(other, rel) <= Reciprocal(best, rel)
  {
    ReciprocalAtMostOne(FirstRelevant(other, rel));
    if h > 0 {
      assert best[0] in rel && FirstRelevant(best, rel) == 0;
    }
  }

  /** Of two lists with their hits in front, the one with more hits among the
      first `k` is strictly better. */
  lemma FrontStrictlyBeats(best: seq<Id>, h: nat, other: seq<Id>, o: nat, rel: set<Id>, k: nat, d: nat -> real)
    requires Discount(d) && HitsInFront(best, rel, h) && HitsInFront(other, rel, o)
    requires Min(o, k) < Min(h, k) && h <= |rel|
    ensures RecallAt(other, rel, k) < RecallAt(best, rel, k)
    ensures Ndcg(other, rel, k, d) < Ndcg(best, rel, k, d)
  {
    var t, u := Take(best, k), Take(other, k);
    FrontTake(best, rel, h, k);
    FrontTake(other, rel, o, k);
    FrontHits(t, rel, Min(h, k));
    FrontHits(u, rel, Min(o, k));
    DcgBound(t, rel, d);
    DcgBound(u, rel, d);
    IdcgGrows(Min(o, k), Min(h, k), d);
    var m := Min(|rel|, k);
    IdcgGrows(0, m, d);
    QuotientOrder(Hits(t, rel) as real, Hits(u, rel) as real, |rel| as real);
    QuotientOrder(Dcg(t, rel, d), Dcg(u, rel, d), Idcg(m, d));
  }

  // ---------------------------------------------------------------- the fixed-k ceiling

  lemma OracleFront(pool: seq<Id>, rel: set<Id>, n: nat)
    requires NoDup(pool)
    ensures HitsInFront(OracleRerank(pool, rel, n), rel, Min(Hits(pool, rel), n))
  {
    RelevantFirstShape(pool, rel);
    HitsAtMostLength(pool, rel);
    FrontTake(RelevantFirst(pool, rel), rel, Hits(pool, rel), n);
  }

  /** A drawn list finds at most what the pool holds. */
  lemma DrawnHits(s: seq<Id>, pool: seq<Id>, rel: set<Id>, k: nat)
    requires NoDup(pool) && DrawnFrom(s, pool)
    ensures Hits(Take(s, k), rel) <= Min(Hits(pool, rel), k)
  {
    var t := Take(s, k);
    DistinctTake(s, k);
    HitsAtMostLength(t, rel);
    HitsAreFound(t, rel);
    HitsAreFound(pool, rel);
    SubsetSize(Found(t, rel), Found(pool, rel));
  }

  /** No list drawn from the pool beats the reordered one on recall, nDCG or
      reciprocal rank, up to the cut-off. */
  lemma OracleIsCeiling(pool: seq<Id>, rel: set<Id>, n: nat, other: seq<Id>, k: nat, d: nat -> real)
    requires Discount(d) && NoDup(pool) && DrawnFrom(other, pool) && 0 < n && k <= n
    ensures RecallAt(other, rel, k) <= RecallAt(OracleRerank(pool, rel, n), rel, k)
    ensures Ndcg(other, rel, k, d) <= Ndcg(OracleRerank(pool, rel, n), rel, k, d)
    ensures Reciprocal(other, rel) <= Reciprocal(OracleRerank(pool, rel, n), rel)
  {
    var best, h := OracleRerank(pool, rel, n), Min(Hits(pool, rel), n);
    OracleFront(pool, rel, n);
    DrawnHits(other, pool, rel, k);
    FrontBeats(best, h, other, rel, k, d);
    if h == 0 {
      HitsAreFound(pool, rel);
      forall x | x in other
        ensures x !in rel
      {
        assert x in pool && x !in Found(pool, rel);
      }
    }
    FrontBeatsReciprocal(best, h, other, rel);
  }

  // ---------------------------------------------------------------- precision

  lemma PrecisionAtMostOne(s: seq<Id>, rel: set<Id>, k: nat)
    ensures 0.0 <= PrecisionAt(s, rel, k) <= 1.0
  {
    HitsAtMostLength(Take(s, k), rel);
    if Min(|s|, k) > 0 {
      QuotientOfOne(Hits(Take(s, k), rel) as real, Min(|s|, k) as real);
    }
  }

  /** Precision is 1 exactly when something is listed and all that counts is relevant. */
  lemma PrecisionOne(s: seq<Id>, rel: set<Id>, k: nat)
    ensures PrecisionAt(s, rel, k) == 1.0 <==> Take(s, k) != [] && forall x :: x in Take(s, k) ==> x in rel
  {
    var t := Take(s, k);
    HitsAtMostLength(t, rel);
    if t != [] {
      QuotientOfOne(Hits(t, rel) as real, |t| as real);
      if forall i :: 0 <= i < |t| ==> t[i] in rel {
        AllRelevantHits(t, rel);
      }
    }
  }

  lemma SinglePrecision(x: Id, rel: set<Id>, k: nat)
    requires x in rel && k > 0
    ensures PrecisionAt([x], rel, k) == 1.0
  {
    assert Take([x], k) == [x] && [x][..0] == [];
    assert Hits([x], rel) == 1;
  }

  /** Without a hit precision is 0. */
  lemma PrecisionZero(s: seq<Id>, rel: set<Id>, k: nat)
    requires Hits(Take(s, k), rel) == 0
    ensures PrecisionAt(s, rel, k) == 0.0
  {
    if Min(|s|, k) > 0 {
      QuotientOrder(0.0, 1.0, Min(|s|, k) as real);
    }
  }
}
