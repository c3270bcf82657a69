/** Reciprocal rank fusion of several ranked lists. */
module Fusion {
  import opened Basics

  /** A memory id. */
  datatype Id = Id(text: string)

  type Ranked = seq<(Id, real)>

  function Denominator(k: real, rank: nat): real {
    k + rank as real + 1.0
  }

  /** No rank divides by zero: `k` is not a negative whole number. */
  ghost predicate Proper(k: real) {
    forall r: nat {:trigger Denominator(k, r)} :: Denominator(k, r) != 0.0
  }

  /** What rank `rank` (from 0) is worth. */
  function Gain(k: real, rank: nat): (r: real)
    requires Proper(k)
    ensures r * (k + rank as real + 1.0) == 1.0
  {
    1.0 / Denominator(k, rank)
  }

  lemma RecipOrder(x: real, y: real, q: real, r: real)
    requires 0.0 < x < y && q * x == 1.0 && r * y == 1.0
    ensures q > r > 0.0
  {
  }

  lemma GainDecreases(k: real, a: nat, b: nat)
    requires Proper(k) && k > -1.0 && a < b
    ensures Gain(k, a) > Gain(k, b) > 0.0
  {
    RecipOrder(Denominator(k, a), Denominator(k, b), Gain(k, a), Gain(k, b));
  }

  /** What one list gives an id, over all its occurrences. */
  function ListScore(list: Ranked, k: real, id: Id): real
    requires Proper(k)
  {
    if list == [] then 0.0
    else
      var n := |list| - 1;
      ListScore(list[..n], k, id) + (if list[n].0 == id then Gain(k, n) else 0.0)
  }

  /** The fused score: the sum over the lists. */
  function Score(lists: seq<Ranked>, k: real, id: Id): real
    requires Proper(k)
  {
    if lists == [] then 0.0
    else Score(lists[..|lists| - 1], k, id) + ListScore(lists[|lists| - 1], k, id)
  }

  function IdsOf(list: Ranked): set<Id> {
    set i | 0 <= i < |list| :: list[i].0
  }

  function AllIds(lists: seq<Ranked>): set<Id> {
    set i, id | 0 <= i < |lists| && id in IdsOf(lists[i]) :: id
  }

  ghost predicate DistinctIds(list: Ranked) {
    forall i, j :: 0 <= i < j < |list| ==> list[i].0 != list[j].0
  }

  ghost predicate Descending(list: Ranked) {
    forall i, j :: 0 <= i < j < |list| ==> list[i].1 >= list[j].1
  }

  /** A fused list: distinct ids with their scores, best first, cut to `limit`,
      and nothing that was cut off scores more than anything that was kept. */
  ghost predicate IsFusion(lists: seq<Ranked>, k: real, limit: nat, out: Ranked)
    requires Proper(k)
  {
    && DistinctIds(out) && Descending(out)
    && (forall i :: 0 <= i < |out| ==> out[i].0 in AllIds(lists) && out[i].1 == Score(lists, k, out[i].0))
    && |out| == (if |AllIds(lists)| <= limit then |AllIds(lists)| else limit)
    && (forall id, i :: id in AllIds(lists) && id !in IdsOf(out) && 0 <= i < |out| ==> Score(lists, k, id) <= out[i].1)
  }

  method Rrf(lists: seq<Ranked>, k: real, limit: nat) returns (out: Ranked)
    requires Proper(k)
    ensures IsFusion(lists, k, limit, out)
  {
    var fused: map<Id, real> := map[];
    for i := 0 to |lists|
      invariant fused.Keys == AllIds(lists[..i])
      invariant forall id :: id in fused ==> fused[id] == Score(lists[..i], k, id)
    {
      fused := AddList(lists[..i], lists[i], k, fused);
      assert lists[..i] + [lists[i]] == lists[..i + 1];
    }
    assert lists[..|lists|] == lists;
    var all := SortByScore(fused);
    out := if |all| <= limit then all else all[..limit];
    CutIsFusion(lists, k, limit, fused, all, out);
  }

  lemma AbsentScoresZero(list: Ranked, k: real, id: Id)
    requires Proper(k) && id !in IdsOf(list)
    ensures ListScore(list, k, id) == 0.0
  {
  }

  lemma AbsentEverywhere(lists: seq<Ranked>, k: real, id: Id)
    requires Proper(k) && id !in AllIds(lists)
    ensures Score(lists, k, id) == 0.0
  {
    if lists != [] {
      var n := |lists| - 1;
      assert IdsOf(lists[n]) <= AllIds(lists);
      assert AllIds(lists[..n]) <= AllIds(lists);
      AbsentScoresZero(lists[n], k, id);
      AbsentEverywhere(lists[..n], k, id);
    }
  }

  lemma PrefixStep(list: Ranked, r: nat, k: real, id: Id)
    requires Proper(k) && r < |list|
    ensures ListScore(list[..r + 1], k, id) == ListScore(list[..r], k, id) + (if list[r].0 == id then Gain(k, r) else 0.0)
    ensures IdsOf(list[..r + 1]) == IdsOf(list[..r]) + {list[r].0}
  {
    assert list[..r + 1][..r] == list[..r];
    assert list[..r + 1] == list[..r] + [list[r]];
  }

  lemma ScoreStep(before: seq<Ranked>, list: Ranked, k: real, id: Id)
    requires Proper(k)
    ensures Score(before + [list], k, id) == Score(before, k, id) + ListScore(list, k, id)
  {
  }

  lemma IdsStep(before: seq<Ranked>, list: Ranked)
    ensures AllIds(before + [list]) == AllIds(before) + IdsOf(list)
  {
    var all := before + [list];
    forall id | id in AllIds(before) + IdsOf(list)
      ensures id in AllIds(all)
    {
      if id in IdsOf(list) {
        assert all[|before|] == list;
      } else {
        var i :| 0 <= i < |before| && id in IdsOf(before[i]);
        assert all[i] == before[i];
      }
    }
  }

  /** The inner loop: one list added to the map. */
  method AddList(ghost before: seq<Ranked>, list: Ranked, k: real, fused0: map<Id, real>) returns (fused: map<Id, real>)
    requires Proper(k)
    requires fused0.Keys == AllIds(before)
    requires forall id :: id in fused0 ==> fused0[id] == Score(before, k, id)
    ensures fused.Keys == AllIds(before + [list])
    ensures forall id :: id in fused ==> fused[id] == Score(before + [list], k, id)
  {
    fused := fused0;
    for rank := 0 to |list|
      invariant fused.Keys == AllIds(before) + IdsOf(list[..rank])
      invariant forall id :: id in fused ==> fused[id] == Score(before, k, id) + ListScore(list[..rank], k, id)
    {
      var id := list[rank].0;
      if id !in fused {
        AbsentEverywhere(before, k, id);
        AbsentScoresZero(list[..rank], k, id);
      }
      var sofar := if id in fused then fused[id] else 0.0;
      fused := fused[id := sofar + Gain(k, rank)];
      forall x | x in fused
        ensures fused[x] == Score(before, k, x) + ListScore(list[..rank + 1], k, x)
      {
        PrefixStep(list, rank, k, x);
      }
      PrefixStep(list, rank, k, id);
    }
    assert list[..|list|] == list;
    IdsStep(before, list);
    forall id | id in fused
      ensures fused[id] == Score(before + [list], k, id)
    {
      ScoreStep(before, list, k, id);
    }
  }

  /** `out` holds, best first, the entries of the map that are not in `todo`. */
  ghost predicate Extracted(fused: map<Id, real>, out: Ranked, todo: set<Id>) {
    && todo <= fused.Keys && IdsOf(out) == fused.Keys - todo && |out| + |todo| == |fused.Keys|
    && DistinctIds(out) && Descending(out)
    && (forall i :: 0 <= i < |out| ==> out[i].0 in fused && out[i].1 == fused[out[i].0])
    && (forall i, id :: 0 <= i < |out| && id in todo ==> fused[id] <= out[i].1)
  }

  lemma ExtractOrder(fused: map<Id, real>, out: Ranked, todo: set<Id>, best: Id)
    requires todo <= fused.Keys && best in todo && best !in IdsOf(out)
    requires DistinctIds(out) && Descending(out)
    requires forall i :: 0 <= i < |out| ==> fused[best] <= out[i].1
    ensures DistinctIds(out + [(best, fused[best])]) && Descending(out + [(best, fused[best])])
  {
  }

  lemma ExtractStep(fused: map<Id, real>, out: Ranked, todo: set<Id>, best: Id)
    requires Extracted(fused, out, todo) && best in todo
    requires forall id :: id in todo ==> fused[id] <= fused[best]
    ensures Extracted(fused, out + [(best, fused[best])], todo - {best})
  {
    IdsAppend(out, (best, fused[best]));
    ExtractOrder(fused, out, todo, best);
    assert |todo - {best}| == |todo| - 1;
  }

  /** The entries of the map, highest value first, equal values in any order. */
  method SortByScore(fused: map<Id, real>) returns (out: Ranked)
    ensures Extracted(fused, out, {})
  {
    out := [];
    var todo := fused.Keys;
    while todo != {}
      invariant Extracted(fused, out, todo)
      decreases todo
    {
      var best := Best(fused, todo);
      ExtractStep(fused, out, todo, best);
      out := out + [(best, fused[best])];
      todo := todo - {best};
    }
  }

  lemma IdsAppend(list: Ranked, e: (Id, real))
    ensures IdsOf(list + [e]) == IdsOf(list) + {e.0}
  {
    var longer := list + [e];
    assert longer[|list|] == e;
    forall id | id in IdsOf(list)
      ensures id in IdsOf(longer)
    {
      var i :| 0 <= i < |list| && list[i].0 == id;
      assert longer[i] == list[i];
    }
  }

  method Best(fused: map<Id, real>, todo: set<Id>) returns (best: Id)
    requires todo != {} && todo <= fused.Keys
    ensures best in todo && forall id :: id in todo ==> fused[id] <= fused[best]
  {
    best :| best in todo;
    var rest := todo - {best};
    while rest != {}
      invariant rest <= todo && best in todo
      invariant forall id :: id in todo && id !in rest ==> fused[id] <= fused[best]
      decreases rest
    {
      var id :| id in rest;
      if fused[id] > fused[best] {
        best := id;
      }
      rest := rest - {id};
    }
  }

  lemma CutScoresLess(all: Ranked, n: nat, j: nat, i: nat)
    requires Descending(all) && n <= |all| && n <= j < |all| && i < n
    ensures all[j].1 <= all[..n][i].1
  {
  }

  /** What is cut off is in the map but not in the list, and scores no more. */
  lemma CutOff(fused: map<Id, real>, all: Ranked, n: nat, id: Id, i: nat)
    requires Extracted(fused, all, {}) && n <= |all|
    requires id in fused && id !in IdsOf(all[..n]) && i < n
    ensures fused[id] <= all[..n][i].1
  {
    forall j | 0 <= j < n
      ensures all[j].0 in IdsOf(all[..n])
    {
      assert all[..n][j] == all[j];
    }
    assert id in IdsOf(all);
    var j :| 0 <= j < |all| && all[j].0 == id;
    CutScoresLess(all, n, j, i);
  }

  lemma CutKeepsOrder(fused: map<Id, real>, all: Ranked, n: nat)
    requires Extracted(fused, all, {}) && n <= |all|
    ensures DistinctIds(all[..n]) && Descending(all[..n])
    ensures forall i :: 0 <= i < n ==> all[..n][i].0 in fused && all[..n][i].1 == fused[all[..n][i].0]
  {
  }

  lemma CutIsFusion(lists: seq<Ranked>, k: real, limit: nat, fused: map<Id, real>, all: Ranked, out: Ranked)
    requires Proper(k)
    requires fused.Keys == AllIds(lists) && forall id :: id in fused ==> fused[id] == Score(lists, k, id)
    requires Extracted(fused, all, {})
    requires out == if |all| <= limit then all else all[..limit]
    ensures IsFusion(lists, k, limit, out)
  {
    var n := |out|;
    assert out == all[..n];
    CutKeepsOrder(fused, all, n);
    forall id, i | id in AllIds(lists) && id !in IdsOf(out) && 0 <= i < n
      ensures Score(lists, k, id) <= out[i].1
    {
      CutOff(fused, all, n, id, i);
    }
  }

  // ---------------------------------------------------------------- what the scores mean

  lemma {:induction false} ScoreRemove(lists: seq<Ranked>, k: real, id: Id, i: nat)
    requires Proper(k) && i < |lists|
    ensures Score(lists, k, id) == Score(lists[..i] + lists[i + 1..], k, id) + ListScore(lists[i], k, id)
    decreases |lists|
  {
    var n := |lists| - 1;
    if i == n {
      assert lists[..i] + lists[i + 1..] == lists[..n];
    } else {
      var shorter := lists[..n];
      ScoreRemove(shorter, k, id, i);
      assert lists[..i] + lists[i + 1..] == (shorter[..i] + shorter[i + 1..]) + [lists[n]];
      ScoreStep(shorter[..i] + shorter[i + 1..], lists[n], k, id);
    }
  }

  lemma MultisetRemove(b: seq<Ranked>, i: nat)
    requires i < |b|
    ensures multiset(b[..i] + b[i + 1..]) == multiset(b) - multiset{b[i]}
  {
    assert b == b[..i] + [b[i]] + b[i + 1..];
  }

  lemma MultisetLast(a: seq<Ranked>)
    requires a != []
    ensures multiset(a) == multiset(a[..|a| - 1]) + multiset{a[|a| - 1]}
  {
    assert a == a[..|a| - 1] + [a[|a| - 1]];
  }

  /** The order in which the lists come does not matter. */
  lemma {:induction false} ScoreIgnoresListOrder(a: seq<Ranked>, b: seq<Ranked>, k: real, id: Id)
    requires Proper(k) && multiset(a) == multiset(b)
    ensures Score(a, k, id) == Score(b, k, id)
    decreases |a|
  {
    if a == [] {
      assert |multiset(b)| == 0;
    } else {
      var n := |a| - 1;
      MultisetLast(a);
      assert a[n] in multiset(b);
      var i :| 0 <= i < |b| && b[i] == a[n];
      MultisetRemove(b, i);
      ScoreIgnoresListOrder(a[..n], b[..i] + b[i + 1..], k, id);
      ScoreRemove(b, k, id, i);
    }
  }

  /** In a list without repetitions an id scores by the one rank it has. */
  lemma {:induction false} ListScoreAt(list: Ranked, k: real, r: nat)
    requires Proper(k) && DistinctIds(list) && r < |list|
    ensures ListScore(list, k, list[r].0) == Gain(k, r)
    decreases |list|
  {
    var n := |list| - 1;
    if r == n {
      assert list[n].0 !in IdsOf(list[..n]);
      AbsentScoresZero(list[..n], k, list[n].0);
    } else {
      ListScoreAt(list[..n], k, r);
    }
  }

  /** The places of an id, in all lists. */
  ghost function Occurrences(lists: seq<Ranked>, id: Id): set<(nat, nat)> {
    set i: nat, j: nat | i < |lists| && j < |lists[i]| && lists[i][j].0 == id :: (i, j)
  }

  /** What a place is worth: the reciprocal of the constant plus the rank from 1. */
  ghost function Worth(k: real): ((nat, nat)) -> real {
    (p: (nat, nat)) => if k + p.1 as real + 1.0 == 0.0 then 0.0 else 1.0 / (k + p.1 as real + 1.0)
  }

  ghost function PlacesIn(i: nat, list: Ranked, id: Id): set<(nat, nat)> {
    set j: nat | j < |list| && list[j].0 == id :: (i, j)
  }

  lemma {:induction false} ListScoreIsSum(i: nat, list: Ranked, k: real, id: Id)
    requires Proper(k)
    ensures ListScore(list, k, id) == RealSum(PlacesIn(i, list, id), Worth(k))
    decreases |list|
  {
    if list == [] {
      assert PlacesIn(i, list, id) == {};
    } else {
      var n := |list| - 1;
      ListScoreIsSum(i, list[..n], k, id);
      if list[n].0 == id {
        assert Denominator(k, n) != 0.0;
        RealSumAdd(PlacesIn(i, list[..n], id), Worth(k), (i, n));
        assert PlacesIn(i, list, id) == PlacesIn(i, list[..n], id) + {(i, n)};
      } else {
        assert PlacesIn(i, list, id) == PlacesIn(i, list[..n], id);
      }
    }
  }

  /** The fused score of an id is the sum of what all its places are worth. */
  lemma {:induction false} ScoreIsSum(lists: seq<Ranked>, k: real, id: Id)
    requires Proper(k)
    ensures Score(lists, k, id) == RealSum(Occurrences(lists, id), Worth(k))
    decreases |lists|
  {
    if lists == [] {
      assert Occurrences(lists, id) == {};
    } else {
      var n := |lists| - 1;
      ScoreIsSum(lists[..n], k, id);
      ListScoreIsSum(n, lists[n], k, id);
      assert Occurrences(lists, id) == Occurrences(lists[..n], id) + PlacesIn(n, lists[n], id);
      RealSumUnion(Occurrences(lists[..n], id), PlacesIn(n, lists[n], id), Worth(k));
    }
  }

  /** `a` comes before `b` wherever `b` comes at all. */
  ghost predicate AheadIn(list: Ranked, a: Id, b: Id) {
    b in IdsOf(list) ==> exists i, j :: 0 <= i < j < |list| && list[i].0 == a && list[j].0 == b
  }

  lemma AheadScoresMore(list: Ranked, k: real, a: Id, b: Id)
    requires Proper(k) && k > -1.0 && DistinctIds(list) && AheadIn(list, a, b)
    ensures ListScore(list, k, a) >= ListScore(list, k, b)
    ensures b in IdsOf(list) ==> ListScore(list, k, a) > ListScore(list, k, b)
  {
    if b in IdsOf(list) {
      var i, j :| 0 <= i < j < |list| && list[i].0 == a && list[j].0 == b;
      ListScoreAt(list, k, i);
      ListScoreAt(list, k, j);
      GainDecreases(k, i, j);
    } else {
      AbsentScoresZero(list, k, b);
    }
  }

  /** An id ahead of another in every list that has the other gets a strictly higher score. */
  lemma {:induction false} AheadEverywhere(lists: seq<Ranked>, k: real, a: Id, b: Id)
    requires Proper(k) && k > -1.0
    requires forall i :: 0 <= i < |lists| ==> DistinctIds(lists[i]) && AheadIn(lists[i], a, b)
    ensures Score(lists, k, a) >= Score(lists, k, b)
    ensures b in AllIds(lists) ==> Score(lists, k, a) > Score(lists, k, b)
    decreases |lists|
  {
    if lists != [] {
      var n := |lists| - 1;
      AheadEverywhere(lists[..n], k, a, b);
      AheadScoresMore(lists[n], k, a, b);
      assert lists == lists[..n] + [lists[n]];
      IdsStep(lists[..n], lists[n]);
    }
  }

  lemma {:induction false} ScoreNonNegative(lists: seq<Ranked>, k: real, id: Id)
    requires Proper(k) && k > -1.0
    ensures Score(lists, k, id) >= 0.0
    decreases |lists|
  {
    if lists != [] {
      ScoreNonNegative(lists[..|lists| - 1], k, id);
      ListScoreNonNegative(lists[|lists| - 1], k, id);
    }
  }

  lemma {:induction false} ListScoreNonNegative(list: Ranked, k: real, id: Id)
    requires Proper(k) && k > -1.0
    ensures ListScore(list, k, id) >= 0.0
    decreases |list|
  {
    if list != [] {
      ListScoreNonNegative(list[..|list| - 1], k, id);
      GainDecreases(k, |list| - 1, |list|);
    }
  }

  /** So the fused list has the first wherever it has the second, and before it. */
  lemma AheadInFusion(lists: seq<Ranked>, k: real, limit: nat, out: Ranked, a: Id, b: Id)
    requires Proper(k) && k > -1.0 && IsFusion(lists, k, limit, out)
    requires forall i :: 0 <= i < |lists| ==> DistinctIds(lists[i]) && AheadIn(lists[i], a, b)
    ensures AheadIn(out, a, b)
  {
    if b in IdsOf(out) {
      AheadEverywhere(lists, k, a, b);
      ScoreNonNegative(lists, k, b);
      if a !in AllIds(lists) {
        AbsentEverywhere(lists, k, a);
      }
      var j :| 0 <= j < |out| && out[j].0 == b;
      assert a in IdsOf(out);
      var i :| 0 <= i < |out| && out[i].0 == a;
      assert i < j;
    }
  }

  /** Being ahead pays in every list. */
  ghost predicate AheadPays(k: real)
    requires Proper(k)
  {
    forall list, a, b {:trigger AheadIn(list, a, b)} :: DistinctIds(list) && b in IdsOf(list) && AheadIn(list, a, b) ==>
      ListScore(list, k, a) > ListScore(list, k, b)
  }

  /** A list of `n` distinct ids. */
  function Sample(n: nat): Ranked {
    seq(n, i requires 0 <= i < n => (Id(seq(i, _ => 'x')), 0.0))
  }

  lemma SampleDistinct(n: nat)
    ensures DistinctIds(Sample(n))
  {
    forall i, j | 0 <= i < j < n
      ensures Sample(n)[i].0 != Sample(n)[j].0
    {
      assert |Sample(n)[i].0.text| == i && |Sample(n)[j].0.text| == j;
    }
  }

  /** With `k` below -1 the gain changes sign between two ranks. */
  lemma SignChange(k: real) returns (r: nat)
    requires Proper(k) && k <= -1.0
    ensures Gain(k, r) < 0.0 < Gain(k, r + 1)
  {
    var x := -k - 1.0;
    r := x.Floor;
    assert Denominator(k, r) != 0.0 && Denominator(k, r) < 0.0 < Denominator(k, r + 1);
    assert Gain(k, r) * Denominator(k, r) == 1.0 && Gain(k, r + 1) * Denominator(k, r + 1) == 1.0;
  }

  /** Being ahead pays exactly for constants above -1. */
  lemma AheadPaysExactly(k: real)
    requires Proper(k)
    ensures AheadPays(k) <==> k > -1.0
  {
    if k > -1.0 {
      forall list, a, b | DistinctIds(list) && b in IdsOf(list) && AheadIn(list, a, b)
        ensures ListScore(list, k, a) > ListScore(list, k, b)
      {
        AheadScoresMore(list, k, a, b);
      }
    } else {
      var r := SignChange(k);
      var list := Sample(r + 2);
      SampleDistinct(r + 2);
      ListScoreAt(list, k, r);
      ListScoreAt(list, k, r + 1);
      assert list[r].0 in IdsOf(list) && list[r + 1].0 in IdsOf(list);
      assert AheadIn(list, list[r].0, list[r + 1].0);
    }
  }
}
