/** Recall, precision, reciprocal rank and nDCG of a ranked list of ids.

    The logarithmic discount is any positive, strictly decreasing function. */
module Metrics {
  import opened Basics
  import opened Fusion

  ghost predicate Discount(d: nat -> real) {
    && (forall i: nat :: d(i) > 0.0)
    && (forall i: nat, j: nat :: i < j ==> d(i) > d(j))
  }

  function Take(s: seq<Id>, k: nat): seq<Id> {
    s[..Min(|s|, k)]
  }

  /** How many entries are relevant. */
  function Hits(s: seq<Id>, rel: set<Id>): nat {
    if s == [] then 0
    else Hits(s[..|s| - 1], rel) + (if s[|s| - 1] in rel then 1 else 0)
  }

  function RecallAt(ranked: seq<Id>, rel: set<Id>, k: nat): real {
    if rel == {} then 0.0 else Hits(Take(ranked, k), rel) as real / |rel| as real
  }

  function PrecisionAt(ranked: seq<Id>, rel: set<Id>, k: nat): real {
    var denom := Min(|ranked|, k);
    if denom == 0 then 0.0 else Hits(Take(ranked, k), rel) as real / denom as real
  }

  /** The reciprocal of the first relevant position, counted from 1. */
  ghost predicate IsReciprocalRank(ranked: seq<Id>, rel: set<Id>, r: real) {
    || (r == 0.0 && forall i :: 0 <= i < |ranked| ==> ranked[i] !in rel)
    || exists i :: 0 <= i < |ranked| && ranked[i] in rel && r == 1.0 / (i as real + 1.0)
         && forall j :: 0 <= j < i ==> ranked[j] !in rel
  }

  /** The position of the first relevant entry, or the length without one. */
  function FirstRelevant(ranked: seq<Id>, rel: set<Id>): (i: nat)
    ensures i <= |ranked|
    ensures forall j :: 0 <= j < i ==> ranked[j] !in rel
    ensures i < |ranked| ==> ranked[i] in rel
  {
    if ranked == [] || ranked[0] in rel then 0 else 1 + FirstRelevant(ranked[1..], rel)
  }

  function Reciprocal(ranked: seq<Id>, rel: set<Id>): real {
    var i := FirstRelevant(ranked, rel);
    if i < |ranked| then 1.0 / (i as real + 1.0) else 0.0
  }

  lemma FirstIsFirst(ranked: seq<Id>, rel: set<Id>, k: nat)
    requires k < |ranked| && ranked[k] in rel && forall j :: 0 <= j < k ==> ranked[j] !in rel
    ensures FirstRelevant(ranked, rel) == k
  {
    var i := FirstRelevant(ranked, rel);
    assert i < |ranked| ==> ranked[i] in rel;
  }

  lemma ReciprocalIsRank(ranked: seq<Id>, rel: set<Id>)
    ensures IsReciprocalRank(ranked, rel, Reciprocal(ranked, rel))
  {
    var i := FirstRelevant(ranked, rel);
    if i < |ranked| {
      assert ranked[i] in rel && Reciprocal(ranked, rel) == 1.0 / (i as real + 1.0);
    }
  }

  lemma ReciprocalMeaning(ranked: seq<Id>, rel: set<Id>, r: real)
    ensures r == Reciprocal(ranked, rel) <==> IsReciprocalRank(ranked, rel, r)
  {
    ReciprocalIsRank(ranked, rel);
    if k :| 0 <= k < |ranked| && ranked[k] in rel && r == 1.0 / (k as real + 1.0) && forall j :: 0 <= j < k ==> ranked[j] !in rel {
      FirstIsFirst(ranked, rel, k);
    }
  }

  method ReciprocalRank(ranked: seq<Id>, rel: set<Id>) returns (r: real)
    ensures IsReciprocalRank(ranked, rel, r)
  {
    for i := 0 to |ranked|
      invariant forall j :: 0 <= j < i ==> ranked[j] !in rel
    {
      if ranked[i] in rel {
        return 1.0 / (i as real + 1.0);
      }
    }
    r := 0.0;
  }

  function Dcg(s: seq<Id>, rel: set<Id>, d: nat -> real): real {
    if s == [] then 0.0
    else
      var n := |s| - 1;
      Dcg(s[..n], rel, d) + (if s[n] in rel then d(n) else 0.0)
  }

  /** The gain of `h` relevant entries in the first `h` places. */
  function Idcg(h: nat, d: nat -> real): real {
    if h == 0 then 0.0 else Idcg(h - 1, d) + d(h - 1)
  }

  function Ndcg(ranked: seq<Id>, rel: set<Id>, k: nat, d: nat -> real): real {
    var idcg := Idcg(Min(|rel|, k), d);
    if idcg == 0.0 then 0.0 else Dcg(Take(ranked, k), rel, d) / idcg
  }

  method NdcgAt(ranked: seq<Id>, rel: set<Id>, k: nat, d: nat -> real) returns (r: real)
    ensures r == Ndcg(ranked, rel, k, d)
  {
    var dcg := 0.0;
    var top := Take(ranked, k);
    for i := 0 to |top|
      invariant dcg == Dcg(top[..i], rel, d)
    {
      assert top[..i + 1][..i] == top[..i];
      if top[i] in rel {
        dcg := dcg + d(i);
      }
    }
    assert top[..|top|] == top;
    var idcg := 0.0;
    for i := 0 to Min(|rel|, k)
      invariant idcg == Idcg(i, d)
    {
      idcg := idcg + d(i);
    }
    r := if idcg == 0.0 then 0.0 else dcg / idcg;
  }

  // ---------------------------------------------------------------- quotients

  lemma QuotientOrder(a: real, b: real, c: real)
    requires c > 0.0
    ensures a <= b <==> a / c <= b / c
    ensures a == b <==> a / c == b / c
  {
  }

  lemma QuotientOfOne(a: real, c: real)
    requires c > 0.0
    ensures a / c <= 1.0 <==> a <= c
    ensures a / c == 1.0 <==> a == c
    ensures a / c >= 0.0 <==> a >= 0.0
  {
  }

  // ---------------------------------------------------------------- counting

  lemma {:induction false} HitsAtMostLength(s: seq<Id>, rel: set<Id>)
    ensures Hits(s, rel) <= |s|
    ensures Hits(s, rel) == |s| <==> forall i :: 0 <= i < |s| ==> s[i] in rel
    decreases |s|
  {
    if s != [] {
      var n := |s| - 1;
      HitsAtMostLength(s[..n], rel);
      assert s[n] in rel || s[n] !in rel;
      forall i | 0 <= i < n
        ensures s[..n][i] == s[i]
      {
      }
    }
  }

  /** The places among the first `k` that hold a relevant id. */
  ghost function HitPlaces(ranked: seq<Id>, rel: set<Id>, k: nat): set<nat> {
    set i: nat | i < |ranked| && i < k && ranked[i] in rel
  }

  lemma {:induction false} HitsArePlaces(s: seq<Id>, rel: set<Id>)
    ensures Hits(s, rel) == |HitPlaces(s, rel, |s|)|
    decreases |s|
  {
    if s == [] {
      assert HitPlaces(s, rel, |s|) == {};
    } else {
      var n := |s| - 1;
      HitsArePlaces(s[..n], rel);
      assert HitPlaces(s, rel, |s|) == HitPlaces(s[..n], rel, n) + (if s[n] in rel then {n} else {});
    }
  }

  lemma TakePlaces(ranked: seq<Id>, rel: set<Id>, k: nat)
    ensures Hits(Take(ranked, k), rel) == |HitPlaces(ranked, rel, k)|
  {
    var t := Take(ranked, k);
    HitsArePlaces(t, rel);
    assert HitPlaces(t, rel, |t|) == HitPlaces(ranked, rel, k);
  }

  lemma QuotientTimes(a: real, c: real)
    requires c > 0.0
    ensures (a / c) * c == a
  {
  }

  /** Precision is the share of the places shown that hold a relevant id, a
      repeated id counting each time; 0 if nothing is shown. */
  lemma PrecisionMeaning(ranked: seq<Id>, rel: set<Id>, k: nat)
    ensures PrecisionAt(ranked, rel, k) * Min(|ranked|, k) as real == |HitPlaces(ranked, rel, k)| as real
    ensures Min(|ranked|, k) == 0 ==> PrecisionAt(ranked, rel, k) == 0.0
  {
    TakePlaces(ranked, rel, k);
    if Min(|ranked|, k) > 0 {
      QuotientTimes(Hits(Take(ranked, k), rel) as real, Min(|ranked|, k) as real);
    } else {
      assert HitPlaces(ranked, rel, k) == {};
    }
  }

  /** Recall is the number of these places over the size of the gold set; 0
      without gold. */
  lemma RecallMeaning(ranked: seq<Id>, rel: set<Id>, k: nat)
    ensures rel != {} ==> RecallAt(ranked, rel, k) * |rel| as real == |HitPlaces(ranked, rel, k)| as real
    ensures rel == {} ==> RecallAt(ranked, rel, k) == 0.0
  {
    TakePlaces(ranked, rel, k);
    if rel != {} {
      QuotientTimes(Hits(Take(ranked, k), rel) as real, |rel| as real);
    }
  }

  /** The relevant ids that occur in the list. */
  function Found(s: seq<Id>, rel: set<Id>): set<Id> {
    set x | x in rel && x in s
  }

  lemma {:induction false} HitsAreFound(s: seq<Id>, rel: set<Id>)
    requires NoDup(s)
    ensures Hits(s, rel) == |Found(s, rel)|
    decreases |s|
  {
    if s == [] {
      assert Found(s, rel) == {};
    } else {
      var n := |s| - 1;
      HitsAreFound(s[..n], rel);
      assert s == s[..n] + [s[n]];
      if s[n] in rel {
        assert Found(s, rel) == Found(s[..n], rel) + {s[n]};
        assert s[n] !in s[..n];
      } else {
        assert Found(s, rel) == Found(s[..n], rel);
      }
    }
  }

  lemma HitsAtMostRelevant(s: seq<Id>, rel: set<Id>)
    requires NoDup(s)
    ensures Hits(s, rel) <= |rel|
    ensures Hits(s, rel) == |rel| <==> forall x :: x in rel ==> x in s
  {
    HitsAreFound(s, rel);
    SubsetSize(Found(s, rel), rel);
    if forall x :: x in rel ==> x in s {
      assert Found(s, rel) == rel;
    }
  }

  lemma {:induction false} HitsConcat(s: seq<Id>, t: seq<Id>, rel: set<Id>)
    ensures Hits(s + t, rel) == Hits(s, rel) + Hits(t, rel)
    decreases |t|
  {
    if t == [] {
      assert s + t == s;
    } else {
      var n := |t| - 1;
      assert (s + t)[..|s + t| - 1] == s + t[..n];
      HitsConcat(s, t[..n], rel);
    }
  }

  // ---------------------------------------------------------------- discounted gain

  lemma {:induction false} IdcgGrows(a: nat, b: nat, d: nat -> real)
    requires Discount(d) && a <= b
    ensures 0.0 <= Idcg(a, d) <= Idcg(b, d)
    ensures a < b ==> Idcg(a, d) < Idcg(b, d)
    decreases b
  {
    if a < b {
      IdcgGrows(a, b - 1, d);
    } else if a > 0 {
      IdcgGrows(a - 1, b - 1, d);
    }
  }

  /** The first `h` entries exist and are all relevant. */
  ghost predicate TopRelevant(s: seq<Id>, rel: set<Id>, h: nat) {
    h <= |s| && forall i :: 0 <= i < h ==> s[i] in rel
  }

  /** A list gains at most what its hits would gain at the very top, and that
      much only with its hits at the very top. */
  lemma {:induction false} DcgBound(s: seq<Id>, rel: set<Id>, d: nat -> real)
    requires Discount(d)
    ensures 0.0 <= Dcg(s, rel, d) <= Idcg(Hits(s, rel), d)
    ensures Dcg(s, rel, d) == Idcg(Hits(s, rel), d) <==> TopRelevant(s, rel, Hits(s, rel))
    decreases |s|
  {
    if s != [] {
      var n := |s| - 1;
      var t := s[..n];
      var c := Hits(t, rel);
      DcgBound(t, rel, d);
      HitsAtMostLength(t, rel);
      TopPrefix(s, rel, c);
      if s[n] in rel {
        assert c < n ==> d(c) > d(n);
        TopPrefixFull(s, rel, c);
      }
    }
  }

  lemma TopPrefix(s: seq<Id>, rel: set<Id>, c: nat)
    requires s != [] && c <= |s| - 1
    ensures TopRelevant(s, rel, c) <==> TopRelevant(s[..|s| - 1], rel, c)
  {
  }

  /** One more relevant entry at the end keeps the hits at the top only if all were. */
  lemma TopPrefixFull(s: seq<Id>, rel: set<Id>, c: nat)
    requires s != [] && s[|s| - 1] in rel && c == Hits(s[..|s| - 1], rel)
    ensures TopRelevant(s, rel, c + 1) <==> c == |s| - 1
  {
    var t := s[..|s| - 1];
    HitsAtMostLength(t, rel);
    if TopRelevant(s, rel, c + 1) && c < |t| {
      assert t == t[..c + 1] + t[c + 1..];
      HitsConcat(t[..c + 1], t[c + 1..], rel);
      HitsAtMostLength(t[..c + 1], rel);
    }
    if c == |t| {
      forall i | 0 <= i < |t|
        ensures s[i] in rel
      {
        assert s[i] == t[i];
      }
    }
  }

  lemma TopAndHits(s: seq<Id>, rel: set<Id>, m: nat)
    requires Hits(s, rel) <= m
    ensures TopRelevant(s, rel, m) <==> Hits(s, rel) == m && TopRelevant(s, rel, Hits(s, rel))
  {
    if TopRelevant(s, rel, m) {
      assert s == s[..m] + s[m..];
      HitsConcat(s[..m], s[m..], rel);
      HitsAtMostLength(s[..m], rel);
    }
  }

  lemma TakeTop(s: seq<Id>, rel: set<Id>, k: nat, m: nat)
    requires m <= k
    ensures TopRelevant(Take(s, k), rel, m) <==> TopRelevant(s, rel, m)
  {
  }

  /** nDCG is between 0 and 1 for distinct ids, and 1 exactly when the places
      that could hold a relevant id all do. */
  lemma NdcgRange(ranked: seq<Id>, rel: set<Id>, k: nat, d: nat -> real)
    requires Discount(d) && NoDup(ranked)
    ensures 0.0 <= Ndcg(ranked, rel, k, d) <= 1.0
    ensures Ndcg(ranked, rel, k, d) == 1.0 <==> rel != {} && k > 0 && TopRelevant(ranked, rel, Min(|rel|, k))
  {
    var t, m := Take(ranked, k), Min(|rel|, k);
    var h := Hits(t, rel);
    HitsAtMostLength(t, rel);
    HitsAtMostRelevant(t, rel);
    DcgBound(t, rel, d);
    IdcgGrows(h, m, d);
    IdcgGrows(0, m, d);
    TopAndHits(t, rel, m);
    TakeTop(ranked, rel, k, m);
    if m > 0 {
      QuotientOfOne(Dcg(t, rel, d), Idcg(m, d));
    } else {
      assert rel == {} || k == 0;
    }
  }

  /** A repeated id can push nDCG above 1, so distinctness is needed. */
  lemma RepeatedIdExceedsOne(a: Id, d: nat -> real)
    requires Discount(d)
    ensures Ndcg([a, a], {a}, 2, d) > 1.0
  {
    var s := [a, a];
    assert Take(s, 2) == s && s[..1] == [a] && [a][..0] == [];
    assert Dcg([a], {a}, d) == d(0);
    assert Dcg(s, {a}, d) == d(0) + d(1);
    assert Idcg(1, d) == d(0);
    QuotientOfOne(d(0) + d(1), d(0));
  }

  // ---------------------------------------------------------------- what nDCG sums

  lemma {:induction false} DcgIsGain(s: seq<Id>, rel: set<Id>, d: nat -> real)
    ensures Dcg(s, rel, d) == RealSum<nat>(HitPlaces(s, rel, |s|), d)
    decreases |s|
  {
    if s == [] {
      assert HitPlaces(s, rel, |s|) == {};
    } else {
      var n := |s| - 1;
      DcgIsGain(s[..n], rel, d);
      if s[n] in rel {
        RealSumAdd<nat>(HitPlaces(s[..n], rel, n), d, n);
        assert HitPlaces(s, rel, |s|) == HitPlaces(s[..n], rel, n) + {n};
      } else {
        assert HitPlaces(s, rel, |s|) == HitPlaces(s[..n], rel, n);
      }
    }
  }

  /** The first `m` places. */
  ghost function TopPlaces(m: nat): (s: set<nat>)
    ensures forall i: nat :: i in s <==> i < m
  {
    if m == 0 then {} else TopPlaces(m - 1) + {m - 1}
  }

  lemma {:induction false} IdcgIsGain(m: nat, d: nat -> real)
    ensures Idcg(m, d) == RealSum<nat>(TopPlaces(m), d)
    decreases m
  {
    if m > 0 {
      IdcgIsGain(m - 1, d);
      RealSumAdd<nat>(TopPlaces(m - 1), d, m - 1);
    }
  }

  /** nDCG is the gain of the places that hold a relevant id, over the gain of the
      first places, as many as there is gold for; 0 without gold or places. */
  lemma NdcgMeaning(ranked: seq<Id>, rel: set<Id>, k: nat, d: nat -> real)
    requires Discount(d)
    ensures rel != {} && k > 0 ==>
              && RealSum<nat>(TopPlaces(Min(|rel|, k)), d) > 0.0
              && Ndcg(ranked, rel, k, d) == RealSum<nat>(HitPlaces(ranked, rel, k), d) / RealSum<nat>(TopPlaces(Min(|rel|, k)), d)
    ensures rel == {} || k == 0 ==> Ndcg(ranked, rel, k, d) == 0.0
  {
    var m := Min(|rel|, k);
    TakenGain(ranked, rel, k, d);
    IdcgIsGain(m, d);
    IdcgPositive(m, d);
    assert m == 0 <==> rel == {} || k == 0;
  }

  lemma IdcgPositive(m: nat, d: nat -> real)
    requires Discount(d)
    ensures Idcg(m, d) >= 0.0
    ensures m > 0 <==> Idcg(m, d) > 0.0
  {
    IdcgGrows(0, m, d);
  }

  lemma TakenGain(ranked: seq<Id>, rel: set<Id>, k: nat, d: nat -> real)
    ensures Dcg(Take(ranked, k), rel, d) == RealSum<nat>(HitPlaces(ranked, rel, k), d)
  {
    var t := Take(ranked, k);
    DcgIsGain(t, rel, d);
    assert HitPlaces(t, rel, |t|) == HitPlaces(ranked, rel, k);
  }

  // ---------------------------------------------------------------- swapping

  function Part(x: Id, i: nat, rel: set<Id>, d: nat -> real): real {
    if x in rel then d(i) else 0.0
  }

  lemma {:induction false} DcgUpdate(s: seq<Id>, i: nat, x: Id, rel: set<Id>, d: nat -> real)
    requires i < |s|
    ensures Dcg(s[i := x], rel, d) == Dcg(s, rel, d) - Part(s[i], i, rel, d) + Part(x, i, rel, d)
    decreases |s|
  {
    var n := |s| - 1;
    if i == n {
      assert s[i := x][..n] == s[..n];
    } else {
      assert s[i := x][..n] == s[..n][i := x];
      DcgUpdate(s[..n], i, x, rel, d);
    }
  }

  /** Moving a relevant id ahead of an irrelevant one never lowers nDCG, and
      raises it when the place it moves to counts. */
  lemma SwapNeverLowers(ranked: seq<Id>, rel: set<Id>, k: nat, d: nat -> real, i: nat, j: nat)
    requires Discount(d) && i < j < |ranked| && ranked[i] !in rel && ranked[j] in rel
    ensures Ndcg(ranked[i := ranked[j]][j := ranked[i]], rel, k, d) >= Ndcg(ranked, rel, k, d)
    ensures i < k ==> Ndcg(ranked[i := ranked[j]][j := ranked[i]], rel, k, d) > Ndcg(ranked, rel, k, d)
  {
    var a, b := ranked[i], ranked[j];
    var swapped := ranked[i := b][j := a];
    var t := Take(ranked, k);
    if k <= i {
      assert Take(swapped, k) == t;
    } else if k <= j {
      assert Take(swapped, k) == t[i := b];
      DcgUpdate(t, i, b, rel, d);
    } else {
      assert Take(swapped, k) == t[i := b][j := a];
      DcgUpdate(t, i, b, rel, d);
      DcgUpdate(t[i := b], j, a, rel, d);
    }
    assert |rel| > 0;
    var m := Min(|rel|, k);
    IdcgGrows(0, m, d);
    if m > 0 {
      QuotientOrder(Dcg(Take(swapped, k), rel, d), Dcg(t, rel, d), Idcg(m, d));
    }
  }
}
