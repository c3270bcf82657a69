/** The dynamic variable-k gate over a ranked list. */
module DynamicGate {
  import opened Basics
  import opened Fusion
  import opened Oracle

  /** The knobs; `tiny` is the smallest positive score the top is raised to. */
  datatype Knobs = Knobs(relFloor: real, dropRatio: real, maxK: nat, absFloor: real, tiny: real)

  function Top(ranked: Ranked, kn: Knobs): real
    requires ranked != []
  {
    if ranked[0].1 >= kn.tiny then ranked[0].1 else kn.tiny
  }

  /** Entry `i` neither falls below the floor nor off a cliff. */
  predicate Passes(ranked: Ranked, kn: Knobs, i: nat)
    requires 0 < i < |ranked|
  {
    ranked[i].1 >= Top(ranked, kn) * kn.relFloor && ranked[i].1 >= ranked[i - 1].1 * kn.dropRatio
  }

  /** The score is at least the given share of the top score, the top being raised
      to `tiny`, and at least the given share of the score before it. */
  ghost predicate Stays(ranked: Ranked, kn: Knobs, i: nat)
    requires 0 < i < |ranked|
  {
    && (ranked[0].1 >= kn.tiny ==> ranked[i].1 >= ranked[0].1 * kn.relFloor)
    && (ranked[0].1 < kn.tiny ==> ranked[i].1 >= kn.tiny * kn.relFloor)
    && ranked[i].1 >= ranked[i - 1].1 * kn.dropRatio
  }

  /** `n` entries survive: the top clears the absolute floor, entries 1 to n-1
      pass, and the next one, if it is within `maxK`, does not. */
  ghost predicate IsGate(ranked: Ranked, kn: Knobs, n: nat) {
    if ranked == [] || Top(ranked, kn) < kn.absFloor then n == 0
    else
      && n <= Min(|ranked|, kn.maxK)
      && (forall i :: 0 < i < n ==> Passes(ranked, kn, i))
      && (n < Min(|ranked|, kn.maxK) ==> n > 0 && !Passes(ranked, kn, n))
  }

  method DynamicGateAbs(ranked: Ranked, kn: Knobs) returns (out: seq<Id>)
    ensures out <= Ids(ranked)
    ensures IsGate(ranked, kn, |out|)
    ensures |out| <= Min(|ranked|, kn.maxK) && forall i :: 0 <= i < |out| ==> out[i] == ranked[i].0
    ensures out == [] <==> ranked == [] || kn.maxK == 0 || (ranked[0].1 < kn.absFloor && kn.tiny < kn.absFloor)
    ensures forall i :: 0 < i < |out| ==> Stays(ranked, kn, i)
    ensures 0 < |out| < Min(|ranked|, kn.maxK) ==> !Stays(ranked, kn, |out|)
  {
    out := [];
    if ranked == [] {
      return;
    }
    var top := Top(ranked, kn);
    if top < kn.absFloor {
      return;
    }
    var prev := top;
    var i := 0;
    while i < Min(|ranked|, kn.maxK)
      invariant i <= Min(|ranked|, kn.maxK)
      invariant out == Ids(ranked)[..i]
      invariant i > 0 ==> prev == ranked[i - 1].1
      invariant forall j :: 0 < j < i ==> Passes(ranked, kn, j)
    {
      var score := ranked[i].1;
      if out == [] {
        out := out + [ranked[i].0];
        prev := score;
        i := i + 1;
        continue;
      }
      if score < top * kn.relFloor {
        break;
      }
      if score < prev * kn.dropRatio {
        break;
      }
      out := out + [ranked[i].0];
      prev := score;
      i := i + 1;
    }
    forall j | 0 < j < |ranked|
      ensures Passes(ranked, kn, j) <==> Stays(ranked, kn, j)
    {
      PassesMeans(ranked, kn, j);
    }
  }

  lemma PassesMeans(ranked: Ranked, kn: Knobs, i: nat)
    requires 0 < i < |ranked|
    ensures Passes(ranked, kn, i) <==> Stays(ranked, kn, i)
  {
  }

  /** The knobs determine how many survive. */
  lemma GateIsUnique(ranked: Ranked, kn: Knobs, m: nat, n: nat)
    requires IsGate(ranked, kn, m) && IsGate(ranked, kn, n)
    ensures m == n
  {
  }

  /** Something survives exactly when there is a top entry, it clears the
      absolute floor and at least one entry is allowed. */
  lemma GateNonEmpty(ranked: Ranked, kn: Knobs, n: nat)
    requires IsGate(ranked, kn, n)
    ensures n > 0 <==> ranked != [] && Top(ranked, kn) >= kn.absFloor && kn.maxK > 0
  {
  }

  /** Without an absolute floor the top entry survives, provided `maxK` is not zero. */
  lemma PlainGateKeepsTop(ranked: Ranked, kn: Knobs, n: nat)
    requires IsGate(ranked, kn, n) && kn.absFloor == 0.0 && kn.tiny > 0.0
    ensures n > 0 <==> ranked != [] && kn.maxK > 0
  {
  }

  /** `b` is at least as strict as `a` in every knob. */
  ghost predicate Tighter(a: Knobs, b: Knobs) {
    a.relFloor <= b.relFloor && a.dropRatio <= b.dropRatio && b.maxK <= a.maxK && a.absFloor <= b.absFloor && a.tiny == b.tiny
  }

  lemma TighterPasses(ranked: Ranked, a: Knobs, b: Knobs, i: nat)
    requires Tighter(a, b) && a.tiny > 0.0 && 0 < i < |ranked|
    requires ranked[i - 1].1 >= 0.0 && Passes(ranked, b, i)
    ensures Passes(ranked, a, i)
  {
  }

  /** Tightening the knobs keeps a prefix of what was kept, when no score is
      negative, or when the scores descend and the floor is not negative. */
  lemma TighteningNests(ranked: Ranked, a: Knobs, b: Knobs, m: nat, n: nat)
    requires Tighter(a, b) && a.tiny > 0.0
    requires (forall i :: 0 <= i < |ranked| ==> ranked[i].1 >= 0.0) || (Descending(ranked) && a.relFloor >= 0.0)
    requires IsGate(ranked, a, m) && IsGate(ranked, b, n)
    ensures n <= m
  {
    if m < n {
      assert Passes(ranked, b, m);
      if Descending(ranked) && a.relFloor >= 0.0 {
        assert Top(ranked, b) * b.relFloor >= 0.0;
        assert ranked[m - 1].1 >= ranked[m].1 >= 0.0;
      }
      TighterPasses(ranked, a, b, m);
    }
  }

  /** Whatever the knobs, tightening them keeps a prefix. */
  ghost predicate AllNest(ranked: Ranked, tiny: real) {
    forall a, b, m: nat, n: nat {:trigger IsGate(ranked, a, m), IsGate(ranked, b, n)} ::
      Tighter(a, b) && a.tiny == tiny && IsGate(ranked, a, m) && IsGate(ranked, b, n) ==> n <= m
  }

  /** Below a negative top a higher drop ratio can keep more. */
  lemma NegativeTopDoesNotNest(ranked: Ranked, tiny: real) returns (a: Knobs, b: Knobs)
    requires |ranked| >= 2 && ranked[0].1 < 0.0 < tiny
    ensures Tighter(a, b) && a.tiny == tiny && IsGate(ranked, a, 1) && IsGate(ranked, b, 2)
  {
    var top, next := ranked[0].1, ranked[1].1;
    b := Knobs(next / tiny, next / top, 2, 0.0, tiny);
    a := b.(dropRatio := next / top - 1.0);
    assert tiny * (next / tiny) == next && top * (next / top) == next;
    assert top * a.dropRatio == next - top;
    assert Passes(ranked, b, 1) && !Passes(ranked, a, 1);
  }

  lemma NoTwoDrops(first: real, second: real, third: real, ratio: real)
    requires first >= 0.0 && second >= first * ratio && third >= second * ratio && second >= third
    ensures second >= 0.0
  {
  }

  /** In a descending ranking no knobs keep two negative entries below a top that
      is not negative: the first would need a negative ratio, the second not. */
  lemma {:induction false} OneNegativeAtMost(ranked: Ranked, kn: Knobs, m: nat, n: nat)
    requires Descending(ranked) && 0 < m < n <= |ranked| && ranked[0].1 >= 0.0
    requires forall i :: 0 < i < n ==> Passes(ranked, kn, i)
    ensures ranked[m - 1].1 >= 0.0
    decreases m
  {
    if m > 1 {
      OneNegativeAtMost(ranked, kn, m - 1, n);
      assert Passes(ranked, kn, m - 1) && Passes(ranked, kn, m);
      NoTwoDrops(ranked[m - 2].1, ranked[m - 1].1, ranked[m].1, kn.dropRatio);
    }
  }

  /** A descending ranking nests for all knobs exactly when its top is not
      negative or it has no second entry. */
  lemma AllNestExactly(ranked: Ranked, tiny: real)
    requires Descending(ranked) && tiny > 0.0
    ensures AllNest(ranked, tiny) <==> |ranked| <= 1 || ranked[0].1 >= 0.0
  {
    if |ranked| <= 1 || ranked[0].1 >= 0.0 {
      forall a, b, m: nat, n: nat | Tighter(a, b) && a.tiny == tiny && IsGate(ranked, a, m) && IsGate(ranked, b, n)
        ensures n <= m
      {
        if m < n {
          assert 0 < m;
          OneNegativeAtMost(ranked, b, m, n);
          TighterPasses(ranked, a, b, m);
        }
      }
    } else {
      var a, b := NegativeTopDoesNotNest(ranked, tiny);
    }
  }

  /** A fused list meets the first condition. */
  lemma FusedScoresNest(lists: seq<Ranked>, k: real, limit: nat, ranked: Ranked, a: Knobs, b: Knobs, m: nat, n: nat)
    requires Proper(k) && k > -1.0 && IsFusion(lists, k, limit, ranked) && Tighter(a, b) && a.tiny > 0.0
    requires IsGate(ranked, a, m) && IsGate(ranked, b, n)
    ensures Ids(ranked)[..n] <= Ids(ranked)[..m]
  {
    forall i | 0 <= i < |ranked|
      ensures ranked[i].1 >= 0.0
    {
      ScoreNonNegative(lists, k, ranked[i].0);
    }
    TighteningNests(ranked, a, b, m, n);
  }
}
