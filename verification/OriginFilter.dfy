/** The metrics are taken after the ids of the query's own session are dropped.
    This is where the two ceilings are compared with what a system could score. */
module OriginFilter {
  import opened Basics
  import opened Fusion
  import opened Metrics
  import opened Oracle

  /** A ranked list as it is measured: without the ids of the session itself. */
  function Scored(s: seq<Id>, origin: set<Id>): seq<Id> {
    Without(s, origin)
  }

  lemma {:induction false} FilterKeepsFront(s: seq<Id>, rel: set<Id>, h: nat, origin: set<Id>)
    requires HitsInFront(s, rel, h)
    ensures HitsInFront(Scored(s, origin), rel, Hits(Scored(s, origin), rel))
    decreases |s|
  {
    if s != [] {
      var n := |s| - 1;
      var w := Scored(s[..n], origin);
      FilterKeepsFront(s[..n], rel, Min(h, n), origin);
      if s[n] !in origin {
        assert Scored(s, origin) == w + [s[n]];
        assert (w + [s[n]])[..|w|] == w;
        if s[n] in rel {
          WithoutMembers(s[..n], origin);
          forall x | x in w
            ensures x in rel
          {
            assert x in s[..n];
          }
          AllRelevantHits(w, rel);
        }
      } else {
        assert Scored(s, origin) == w;
      }
    }
  }

  /** The gold ids in the pool that are not dropped. */
  function Live(pool: seq<Id>, rel: set<Id>, origin: set<Id>): set<Id> {
    Found(pool, rel - origin)
  }

  lemma ScoredHits(s: seq<Id>, rel: set<Id>, origin: set<Id>)
    requires NoDup(s)
    ensures NoDup(Scored(s, origin)) && |Scored(s, origin)| <= |s|
    ensures Hits(Scored(s, origin), rel) == |Live(s, rel, origin)|
  {
    WithoutMembers(s, origin);
    WithoutDistinct(s, origin);
    HitsAreFound(Scored(s, origin), rel);
    assert Found(Scored(s, origin), rel) == Live(s, rel, origin);
  }

  /** The first `k` of any list, once filtered, find at most what is live in the pool. */
  lemma ScoredDrawn(other: seq<Id>, pool: seq<Id>, rel: set<Id>, origin: set<Id>, k: nat)
    requires NoDup(pool) && DrawnFrom(other, pool)
    ensures Hits(Take(Scored(other, origin), k), rel) <= Min(|Live(pool, rel, origin)|, k)
  {
    var s := Scored(other, origin);
    WithoutMembers(other, origin);
    WithoutDistinct(other, origin);
    DistinctTake(s, k);
    HitsAtMostLength(Take(s, k), rel);
    HitsAreFound(Take(s, k), rel);
    SubsetSize(Found(Take(s, k), rel), Live(pool, rel, origin));
  }

  lemma NothingLive(other: seq<Id>, pool: seq<Id>, rel: set<Id>, origin: set<Id>)
    requires DrawnFrom(other, pool) && Live(pool, rel, origin) == {}
    ensures forall x :: x in Scored(other, origin) ==> x !in rel
  {
    WithoutMembers(other, origin);
    forall x | x in Scored(other, origin)
      ensures x !in rel
    {
      assert x in pool && x !in Live(pool, rel, origin);
    }
  }

  // ---------------------------------------------------------------- the fixed-k ceiling, as measured

  /** The cut loses no gold id that would count, or none is dropped after it. */
  ghost predicate CutIsHarmless(rel: set<Id>, origin: set<Id>, n: nat) {
    rel !! origin || rel <= origin || |rel| <= n
  }

  /** Enough gold survives the cut to fill the first `k` places. */
  ghost predicate SurvivorsSuffice(rel: set<Id>, origin: set<Id>, n: nat, k: nat) {
    k == 0 || CutIsHarmless(rel, origin, n) || |rel * origin| + k <= n
  }

  /** Dropping ids from a list loses at most the gold ids among them. */
  lemma DroppedAtMost(s: seq<Id>, rel: set<Id>, origin: set<Id>)
    ensures |Found(s, rel)| <= |Live(s, rel, origin)| + |rel * origin|
  {
    var live, dead := Live(s, rel, origin), rel * origin;
    SubsetSize(Found(s, rel), live + dead);
    assert live + dead == live + (dead - live);
    SubsetSize(dead - live, dead);
  }

  lemma OracleSurvivors(pool: seq<Id>, rel: set<Id>, origin: set<Id>, n: nat, k: nat)
    requires NoDup(pool) && k <= n && SurvivorsSuffice(rel, origin, n, k)
    ensures Hits(Scored(OracleRerank(pool, rel, n), origin), rel) >= Min(|Live(pool, rel, origin)|, k)
  {
    var best := OracleRerank(pool, rel, n);
    OracleFront(pool, rel, n);
    FrontHits(best, rel, Min(Hits(pool, rel), n));
    RelevantFirstShape(pool, rel);
    DistinctTake(RelevantFirst(pool, rel), n);
    ScoredHits(best, rel, origin);
    HitsAreFound(best, rel);
    HitsAreFound(pool, rel);
    if Hits(pool, rel) <= n {
      SubsetSize(Found(best, rel), Found(pool, rel));
      assert Live(best, rel, origin) == Live(pool, rel, origin);
    } else if rel <= origin {
      assert Live(pool, rel, origin) == {};
    } else {
      HitsAtMostRelevant(pool, rel);
      DroppedAtMost(best, rel, origin);
      if rel !! origin {
        assert rel * origin == {};
      }
    }
  }

  /** As far as enough gold survives, the filtered reordered list is a ceiling
      for every filtered list. */
  lemma FilteredCeiling(pool: seq<Id>, rel: set<Id>, origin: set<Id>, n: nat, other: seq<Id>, k: nat, d: nat -> real)
    requires Discount(d) && NoDup(pool) && DrawnFrom(other, pool) && k <= n
    requires SurvivorsSuffice(rel, origin, n, k)
    ensures RecallAt(Scored(other, origin), rel, k) <= RecallAt(Scored(OracleRerank(pool, rel, n), origin), rel, k)
    ensures Ndcg(Scored(other, origin), rel, k, d) <= Ndcg(Scored(OracleRerank(pool, rel, n), origin), rel, k, d)
  {
    var best := OracleRerank(pool, rel, n);
    OracleFront(pool, rel, n);
    FilterKeepsFront(best, rel, Min(Hits(pool, rel), n), origin);
    OracleSurvivors(pool, rel, origin, n, k);
    ScoredDrawn(other, pool, rel, origin, k);
    FrontBeats(Scored(best, origin), Hits(Scored(best, origin), rel), Scored(other, origin), rel, k, d);
  }

  /** For the reciprocal rank one survivor is enough. */
  lemma FilteredReciprocal(pool: seq<Id>, rel: set<Id>, origin: set<Id>, n: nat, other: seq<Id>)
    requires NoDup(pool) && DrawnFrom(other, pool) && 0 < n && SurvivorsSuffice(rel, origin, n, 1)
    ensures Reciprocal(Scored(other, origin), rel) <= Reciprocal(Scored(OracleRerank(pool, rel, n), origin), rel)
  {
    var best := OracleRerank(pool, rel, n);
    OracleFront(pool, rel, n);
    FilterKeepsFront(best, rel, Min(Hits(pool, rel), n), origin);
    OracleSurvivors(pool, rel, origin, n, 1);
    if Live(pool, rel, origin) == {} {
      NothingLive(other, pool, rel, origin);
    }
    FrontBeatsReciprocal(Scored(best, origin), Hits(Scored(best, origin), rel), Scored(other, origin), rel);
  }

  /** With a gold set free of the session's own ids, no list drawn from the pool
      scores better on recall, nDCG or reciprocal rank, up to the cut-off. */
  lemma MeasuredCeiling(pool: seq<Id>, rel: set<Id>, origin: set<Id>, n: nat, other: seq<Id>, k: nat, d: nat -> real)
    requires Discount(d) && NoDup(pool) && DrawnFrom(other, pool) && 0 < n && k <= n
    requires rel !! origin
    ensures RecallAt(Scored(other, origin), rel, k) <= RecallAt(Scored(OracleRerank(pool, rel, n), origin), rel, k)
    ensures Ndcg(Scored(other, origin), rel, k, d) <= Ndcg(Scored(OracleRerank(pool, rel, n), origin), rel, k, d)
    ensures Reciprocal(Scored(other, origin), rel) <= Reciprocal(Scored(OracleRerank(pool, rel, n), origin), rel)
  {
    FilteredCeiling(pool, rel, origin, n, other, k, d);
    FilteredReciprocal(pool, rel, origin, n, other);
  }

  // ---------------------------------------------------------------- and only that far

  lemma {:induction false} SeqOfSet(s: set<Id>) returns (q: seq<Id>)
    ensures NoDup(q) && |q| == |s| && forall x :: x in q <==> x in s
    decreases |s|
  {
    if s == {} {
      q := [];
    } else {
      var x :| x in s;
      var rest := SeqOfSet(s - {x});
      q := rest + [x];
    }
  }

  lemma {:induction false} FilterAll(s: seq<Id>, rel: set<Id>)
    requires forall x :: x in s ==> x in rel
    ensures Filter(s, rel) == s && Without(s, rel) == []
    decreases |s|
  {
    if s != [] {
      assert s[|s| - 1] in s;
      FilterAll(s[..|s| - 1], rel);
      assert s == s[..|s| - 1] + [s[|s| - 1]];
    }
  }

  lemma {:induction false} WithoutConcat(s: seq<Id>, t: seq<Id>, drop: set<Id>)
    ensures Without(s + t, drop) == Without(s, drop) + Without(t, drop)
    decreases |t|
  {
    if t == [] {
      assert s + t == s;
    } else {
      var n := |t| - 1;
      assert (s + t)[..|s + t| - 1] == s + t[..n];
      WithoutConcat(s, t[..n], drop);
    }
  }

  lemma {:induction false} WithoutNone(s: seq<Id>, drop: set<Id>)
    requires forall x :: x in s ==> x !in drop
    ensures Without(s, drop) == s
    decreases |s|
  {
    if s != [] {
      assert s[|s| - 1] in s;
      WithoutNone(s[..|s| - 1], drop);
      assert s == s[..|s| - 1] + [s[|s| - 1]];
    }
  }

  lemma {:induction false} WithoutAll(s: seq<Id>, drop: set<Id>)
    requires forall x :: x in s ==> x in drop
    ensures Without(s, drop) == []
    decreases |s|
  {
    if s != [] {
      assert s[|s| - 1] in s;
      WithoutAll(s[..|s| - 1], drop);
    }
  }

  lemma AllRelevantFront(s: seq<Id>, rel: set<Id>)
    requires forall x :: x in s ==> x in rel
    ensures HitsInFront(s, rel, |s|)
  {
  }

  /** Split the gold set into the ids dropped later and the others. */
  lemma DeadAndLive(rel: set<Id>, origin: set<Id>) returns (dead: seq<Id>, live: seq<Id>)
    ensures NoDup(dead + live) && |dead| == |rel * origin| && |dead + live| == |rel|
    ensures forall x :: x in dead <==> x in rel && x in origin
    ensures forall x :: x in live <==> x in rel && x !in origin
  {
    dead := SeqOfSet(rel * origin);
    live := SeqOfSet(rel - origin);
    assert rel == rel * origin + (rel - origin);
    forall i, j | 0 <= i < |dead| && 0 <= j < |live|
      ensures dead[i] != live[j]
    {
      assert dead[i] in dead && live[j] in live;
    }
  }

  lemma DeadFirstScored(dead: seq<Id>, live: seq<Id>, origin: set<Id>)
    requires (forall x :: x in dead ==> x in origin) && forall x :: x in live ==> x !in origin
    ensures Scored(dead + live, origin) == live
  {
    WithoutConcat(dead, live, origin);
    WithoutAll(dead, origin);
    WithoutNone(live, origin);
  }

  /** Of a pool of gold ids only, the dropped ones first, the filtered
      reordered list keeps a part of the live ones. */
  lemma DeadFirstKept(dead: seq<Id>, live: seq<Id>, rel: set<Id>, origin: set<Id>, n: nat)
    requires (forall x :: x in dead ==> x in origin) && forall x :: x in live ==> x !in origin
    requires (forall x :: x in dead + live ==> x in rel) && n <= |dead + live|
    ensures Scored(OracleRerank(dead + live, rel, n), origin) == if n <= |dead| then [] else live[..n - |dead|]
  {
    var pool := dead + live;
    FilterAll(pool, rel);
    assert RelevantFirst(pool, rel) == pool;
    if n <= |dead| {
      assert pool[..n] == dead[..n];
      WithoutAll(dead[..n], origin);
    } else {
      assert pool[..n] == dead + live[..n - |dead|];
      DeadFirstScored(dead, live[..n - |dead|], origin);
    }
  }

  lemma DeadFirstHarms(dead: seq<Id>, live: seq<Id>, rel: set<Id>, origin: set<Id>, n: nat, k: nat, d: nat -> real)
    requires (forall x :: x in dead ==> x in origin) && forall x :: x in live ==> x !in origin
    requires (forall x :: x in dead + live ==> x in rel) && live != [] && |live| <= |rel|
    requires Discount(d) && 0 < k <= n < |dead + live| && n < |dead| + k
    ensures RecallAt(Scored(OracleRerank(dead + live, rel, n), origin), rel, k) < RecallAt(Scored(dead + live, origin), rel, k)
    ensures Ndcg(Scored(OracleRerank(dead + live, rel, n), origin), rel, k, d) < Ndcg(Scored(dead + live, origin), rel, k, d)
    ensures k == 1 ==>
              Reciprocal(Scored(OracleRerank(dead + live, rel, n), origin), rel) < Reciprocal(Scored(dead + live, origin), rel)
  {
    var kept := if n <= |dead| then [] else live[..n - |dead|];
    DeadFirstScored(dead, live, origin);
    DeadFirstKept(dead, live, rel, origin, n);
    forall x | x in live
      ensures x in rel
    {
      assert x in dead + live;
    }
    AllRelevantFront(live, rel);
    AllRelevantFront(kept, rel);
    FrontStrictlyBeats(live, |live|, kept, |kept|, rel, k, d);
    assert live[0] in live && Reciprocal(live, rel) == 1.0;
  }

  /** Otherwise some pool holds a better list: the cut keeps ids that are dropped
      afterwards and loses ids that would have counted. */
  lemma CutHarms(rel: set<Id>, origin: set<Id>, n: nat, k: nat, d: nat -> real) returns (pool: seq<Id>)
    requires Discount(d) && k <= n && !SurvivorsSuffice(rel, origin, n, k)
    ensures NoDup(pool)
    ensures RecallAt(Scored(OracleRerank(pool, rel, n), origin), rel, k) < RecallAt(Scored(pool, origin), rel, k)
    ensures Ndcg(Scored(OracleRerank(pool, rel, n), origin), rel, k, d) < Ndcg(Scored(pool, origin), rel, k, d)
    ensures k == 1 ==>
              Reciprocal(Scored(OracleRerank(pool, rel, n), origin), rel) < Reciprocal(Scored(pool, origin), rel)
  {
    var dead, live := DeadAndLive(rel, origin);
    var x :| x in rel && x !in origin;
    assert x in live;
    DeadFirstHarms(dead, live, rel, origin, n, k, d);
    pool := dead + live;
  }

  ghost predicate IsRecallCeiling(rel: set<Id>, origin: set<Id>, n: nat, k: nat) {
    forall pool, other {:trigger DrawnFrom(other, pool)} :: NoDup(pool) && DrawnFrom(other, pool) ==>
      RecallAt(Scored(other, origin), rel, k) <= RecallAt(Scored(OracleRerank(pool, rel, n), origin), rel, k)
  }

  ghost predicate IsNdcgCeiling(rel: set<Id>, origin: set<Id>, n: nat, k: nat, d: nat -> real) {
    forall pool, other {:trigger DrawnFrom(other, pool)} :: NoDup(pool) && DrawnFrom(other, pool) ==>
      Ndcg(Scored(other, origin), rel, k, d) <= Ndcg(Scored(OracleRerank(pool, rel, n), origin), rel, k, d)
  }

  ghost predicate IsReciprocalCeiling(rel: set<Id>, origin: set<Id>, n: nat) {
    forall pool, other {:trigger DrawnFrom(other, pool)} :: NoDup(pool) && DrawnFrom(other, pool) ==>
      Reciprocal(Scored(other, origin), rel) <= Reciprocal(Scored(OracleRerank(pool, rel, n), origin), rel)
  }

  /** For every gold set and every `k` up to the cut-off, the reordered list is a
      ceiling over all pools exactly when enough gold survives. */
  lemma CeilingExactly(rel: set<Id>, origin: set<Id>, n: nat, k: nat, d: nat -> real)
    requires Discount(d) && k <= n
    ensures IsRecallCeiling(rel, origin, n, k) <==> SurvivorsSuffice(rel, origin, n, k)
    ensures IsNdcgCeiling(rel, origin, n, k, d) <==> SurvivorsSuffice(rel, origin, n, k)
  {
    if SurvivorsSuffice(rel, origin, n, k) {
      forall pool, other | NoDup(pool) && DrawnFrom(other, pool)
        ensures RecallAt(Scored(other, origin), rel, k) <= RecallAt(Scored(OracleRerank(pool, rel, n), origin), rel, k)
        ensures Ndcg(Scored(other, origin), rel, k, d) <= Ndcg(Scored(OracleRerank(pool, rel, n), origin), rel, k, d)
      {
        FilteredCeiling(pool, rel, origin, n, other, k, d);
      }
    } else {
      var pool := CutHarms(rel, origin, n, k, d);
      assert DrawnFrom(pool, pool);
    }
  }

  /** The reciprocal rank needs what recall at 1 needs. */
  lemma ReciprocalCeilingExactly(rel: set<Id>, origin: set<Id>, n: nat, d: nat -> real)
    requires Discount(d) && 0 < n
    ensures IsReciprocalCeiling(rel, origin, n) <==> SurvivorsSuffice(rel, origin, n, 1)
  {
    if SurvivorsSuffice(rel, origin, n, 1) {
      forall pool, other | NoDup(pool) && DrawnFrom(other, pool)
        ensures Reciprocal(Scored(other, origin), rel) <= Reciprocal(Scored(OracleRerank(pool, rel, n), origin), rel)
      {
        FilteredReciprocal(pool, rel, origin, n, other);
      }
    } else {
      var pool := CutHarms(rel, origin, n, 1, d);
      assert DrawnFrom(pool, pool);
    }
  }

  // ---------------------------------------------------------------- precision of the fixed-k ceiling

  ghost predicate IsPrecisionCeiling(pool: seq<Id>, rel: set<Id>, origin: set<Id>, n: nat, k: nat) {
    forall other {:trigger DrawnFrom(other, pool)} :: DrawnFrom(other, pool) ==>
      PrecisionAt(Scored(other, origin), rel, k) <= PrecisionAt(Scored(OracleRerank(pool, rel, n), origin), rel, k)
  }

  /** Something is measured among the first `k`, and all of it is gold. */
  ghost predicate NoPaddingShows(pool: seq<Id>, rel: set<Id>, origin: set<Id>, n: nat, k: nat) {
    var top := Take(Scored(OracleRerank(pool, rel, n), origin), k);
    top != [] && forall x :: x in top ==> x in rel
  }

  lemma ScoredAlone(x: Id, origin: set<Id>)
    requires x !in origin
    ensures Scored([x], origin) == [x]
  {
    WithoutNone([x], origin);
  }

  lemma LiveAlone(pool: seq<Id>, rel: set<Id>, origin: set<Id>, k: nat, x: Id)
    requires x in pool && x in rel && x !in origin && k > 0
    ensures DrawnFrom([x], pool) && PrecisionAt(Scored([x], origin), rel, k) == 1.0
  {
    ScoredAlone(x, origin);
    SinglePrecision(x, rel, k);
  }

  /** It is a ceiling on precision exactly when nothing in the pool could count,
      or no padding shows among the first `k`. */
  lemma PrecisionCeilingExactly(pool: seq<Id>, rel: set<Id>, origin: set<Id>, n: nat, k: nat)
    requires NoDup(pool)
    ensures IsPrecisionCeiling(pool, rel, origin, n, k)
            <==> k == 0 || Live(pool, rel, origin) == {} || NoPaddingShows(pool, rel, origin, n, k)
  {
    var best := Scored(OracleRerank(pool, rel, n), origin);
    PrecisionAtMostOne(best, rel, k);
    PrecisionOne(best, rel, k);
    if k == 0 || Live(pool, rel, origin) == {} || NoPaddingShows(pool, rel, origin, n, k) {
      forall other | DrawnFrom(other, pool)
        ensures PrecisionAt(Scored(other, origin), rel, k) <= PrecisionAt(best, rel, k)
      {
        PrecisionAtMostOne(Scored(other, origin), rel, k);
        ScoredDrawn(other, pool, rel, origin, k);
        if k == 0 || Live(pool, rel, origin) == {} {
          PrecisionZero(Scored(other, origin), rel, k);
        }
      }
    } else {
      var x :| x in Live(pool, rel, origin);
      LiveAlone(pool, rel, origin, k, x);
    }
  }

  /** The padding that is not dropped: what follows the gold ids, up to the cut. */
  function Padding(pool: seq<Id>, rel: set<Id>, n: nat): seq<Id> {
    Take(Without(pool, rel), if Hits(pool, rel) <= n then n - Hits(pool, rel) else 0)
  }

  lemma OracleParts(pool: seq<Id>, rel: set<Id>, origin: set<Id>, n: nat)
    requires NoDup(pool) && rel !! origin && Hits(pool, rel) <= n
    ensures Scored(OracleRerank(pool, rel, n), origin) == Filter(pool, rel) + Scored(Padding(pool, rel, n), origin)
  {
    var f, p := Filter(pool, rel), Padding(pool, rel, n);
    FilterMembers(pool, rel);
    assert OracleRerank(pool, rel, n) == f + p;
    WithoutConcat(f, p, origin);
    WithoutNone(f, origin);
  }

  /** What shows, for a gold set free of the session's own ids. */
  lemma PaddingShows(pool: seq<Id>, rel: set<Id>, origin: set<Id>, n: nat, k: nat)
    requires NoDup(pool) && rel !! origin && k <= n && 0 < Hits(pool, rel) < k
    ensures NoPaddingShows(pool, rel, origin, n, k) <==> forall x :: x in Padding(pool, rel, n) ==> x in origin
  {
    var f, p := Filter(pool, rel), Padding(pool, rel, n);
    var q := Scored(p, origin);
    OracleParts(pool, rel, origin, n);
    FilterMembers(pool, rel);
    WithoutMembers(pool, rel);
    WithoutMembers(p, origin);
    var top := Take(f + q, k);
    assert top[0] == f[0];
    if q == [] {
      assert f + q == f;
    } else {
      assert top[|f|] == q[0] && q[0] in q && q[0] in p && q[0] in Without(pool, rel);
      assert top[|f|] in top;
    }
    if forall x :: x in p ==> x in origin {
      WithoutAll(p, origin);
    }
  }

  /** So for such a gold set precision is a ceiling exactly when the pool has no
      gold, or enough to fill the first `k`, or only dropped ids as padding. */
  lemma PrecisionCeilingByPool(pool: seq<Id>, rel: set<Id>, origin: set<Id>, n: nat, k: nat)
    requires NoDup(pool) && rel !! origin && k <= n
    ensures IsPrecisionCeiling(pool, rel, origin, n, k)
            <==> Hits(pool, rel) == 0 || k <= Hits(pool, rel) || forall x :: x in Padding(pool, rel, n) ==> x in origin
  {
    PrecisionCeilingExactly(pool, rel, origin, n, k);
    HitsAreFound(pool, rel);
    assert rel - origin == rel;
    if 0 < Hits(pool, rel) < k {
      PaddingShows(pool, rel, origin, n, k);
    } else if 0 < k <= Hits(pool, rel) {
      var best := OracleRerank(pool, rel, n);
      OracleFront(pool, rel, n);
      FilterKeepsFront(best, rel, Min(Hits(pool, rel), n), origin);
      OracleSurvivors(pool, rel, origin, n, k);
    }
  }

  // ---------------------------------------------------------------- the dynamic-k ceiling, as measured

  /** What is measured of it: the live gold ids of the pool, each once. */
  lemma DynScored(pool: seq<Id>, rel: set<Id>, origin: set<Id>)
    requires NoDup(pool)
    ensures var s := Scored(OracleDyn(pool, rel), origin);
            && NoDup(s) && |s| == |Live(pool, rel, origin)| && HitsInFront(s, rel, |s|)
            && forall x :: x in s <==> x in Live(pool, rel, origin)
  {
    var f := OracleDyn(pool, rel);
    var s := Scored(f, origin);
    FilterMembers(pool, rel);
    FilterDistinct(pool, rel);
    WithoutMembers(f, origin);
    ScoredHits(f, rel, origin);
    AllRelevantHits(s, rel);
    assert Live(f, rel, origin) == Live(pool, rel, origin);
  }

  /** No list drawn from the pool scores better by any of the four measures, for
      any pool, gold set, dropped ids and `k`. */
  lemma DynIsCeiling(pool: seq<Id>, rel: set<Id>, origin: set<Id>, other: seq<Id>, k: nat, d: nat -> real)
    requires Discount(d) && NoDup(pool) && DrawnFrom(other, pool)
    ensures var s, o := Scored(OracleDyn(pool, rel), origin), Scored(other, origin);
            && PrecisionAt(o, rel, k) <= PrecisionAt(s, rel, k) && RecallAt(o, rel, k) <= RecallAt(s, rel, k)
            && Ndcg(o, rel, k, d) <= Ndcg(s, rel, k, d) && Reciprocal(o, rel) <= Reciprocal(s, rel)
  {
    var s, o := Scored(OracleDyn(pool, rel), origin), Scored(other, origin);
    DynScored(pool, rel, origin);
    ScoredDrawn(other, pool, rel, origin, k);
    FrontBeats(s, |s|, o, rel, k, d);
    PrecisionAtMostOne(o, rel, k);
    if s == [] {
      NothingLive(other, pool, rel, origin);
      PrecisionZero(o, rel, k);
    } else if k > 0 {
      PrecisionOne(s, rel, k);
    }
    FrontBeatsReciprocal(s, |s|, o, rel);
  }

  /** It reaches precision and recall 1 together exactly when the pool holds all
      gold, the gold fits into the first `k`, and none of it is dropped. */
  lemma DynPerfectExactly(pool: seq<Id>, rel: set<Id>, origin: set<Id>, k: nat)
    requires NoDup(pool)
    ensures var s := Scored(OracleDyn(pool, rel), origin);
            PrecisionAt(s, rel, k) == 1.0 && RecallAt(s, rel, k) == 1.0
            <==> 0 < |rel| <= k && (forall x :: x in rel ==> x in pool) && rel !! origin
  {
    var s, live := Scored(OracleDyn(pool, rel), origin), Live(pool, rel, origin);
    DynScored(pool, rel, origin);
    FrontTake(s, rel, |s|, k);
    FrontHits(Take(s, k), rel, Min(|s|, k));
    PrecisionOne(s, rel, k);
    SubsetSize(live, rel);
    if rel != {} {
      QuotientOfOne(Min(|s|, k) as real, |rel| as real);
      if (forall x :: x in rel ==> x in pool) && rel !! origin {
        assert live == rel;
      }
    }
  }

  /** The documented claim leaves the size of the gold set out: with more gold
      than `k`, recall stays below 1 although the pool holds it all. */
  lemma DynRecallBelowOne(a: Id, b: Id, origin: set<Id>)
    requires a != b
    ensures RecallAt(Scored(OracleDyn([a, b], {a, b}), origin), {a, b}, 1) < 1.0
  {
    var pool, rel := [a, b], {a, b};
    var t := Take(Scored(OracleDyn(pool, rel), origin), 1);
    HitsAtMostLength(t, rel);
    assert |rel| == 2;
    QuotientOfOne(Hits(t, rel) as real, 2.0);
  }

  // ---------------------------------------------------------------- fused lists

  /** The ids of a fused list are distinct, so what is measured of it has an nDCG
      in range, and 1 exactly when the places that could hold gold all do. */
  lemma NdcgOfFusion(
    lists: seq<Ranked>, k0: real, limit: nat, out: Ranked, rel: set<Id>, origin: set<Id>, k: nat, d: nat -> real)
    requires Proper(k0) && IsFusion(lists, k0, limit, out) && Discount(d)
    ensures var s := Scored(Ids(out), origin);
            && 0.0 <= Ndcg(s, rel, k, d) <= 1.0
            && (Ndcg(s, rel, k, d) == 1.0 <==> rel != {} && k > 0 && TopRelevant(s, rel, Min(|rel|, k)))
  {
    WithoutDistinct(Ids(out), origin);
    NdcgRange(Scored(Ids(out), origin), rel, k, d);
  }
}
