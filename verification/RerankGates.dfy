/** The two turn-by-turn gates that decide when the expensive rerank fires. */
module RerankGates {
  import opened Basics

  /** An embedding; a turn that could not be embedded has the empty one. */
  type Emb = seq<real>

  const TOPIC_CHANGE_THRESHOLD: real := 0.3

  // ---------------------------------------------------------------- the production gate

  /** The counters and memory of the gate, with the turns it fired at. */
  datatype Gate = Gate(
    total: nat, topic: nat, due: nat, fires: nat,
    last: Option<nat>, prev: Option<Emb>, firedAt: set<nat>)

  /** The session drifted from the previous embedded turn. */
  predicate Drifted(prev: Option<Emb>, emb: Emb, sim: (Emb, Emb) -> real) {
    prev.Some? && sim(emb, prev.value) < TOPIC_CHANGE_THRESHOLD
  }

  /** No rerank yet, or the last one is `cadence` turns old. */
  predicate Due(last: Option<nat>, t: nat, cadence: nat) {
    last.None? || cadence <= 1 || t >= last.value + cadence
  }

  /** One turn of the session. */
  function Turn(s: Gate, t: nat, emb: Emb, cadence: nat, sim: (Emb, Emb) -> real): Gate {
    if emb == [] then s
    else
      var seen := s.(total := s.total + 1, prev := Some(emb));
      if Drifted(s.prev, emb, sim) then
        seen.(topic := s.topic + 1, fires := s.fires + 1, last := Some(t), firedAt := s.firedAt + {t})
      else if s.last.None? then
        seen.(fires := s.fires + 1, last := Some(t), firedAt := s.firedAt + {t})
      else if Due(s.last, t, cadence) then
        seen.(due := s.due + 1, fires := s.fires + 1, last := Some(t), firedAt := s.firedAt + {t})
      else seen
  }

  function Session(embs: seq<Emb>, cadence: nat, sim: (Emb, Emb) -> real): Gate {
    if embs == [] then Gate(0, 0, 0, 0, None, None, {})
    else
      var n := |embs| - 1;
      Turn(Session(embs[..n], cadence, sim), n, embs[n], cadence, sim)
  }

  /** The running totals over the sessions. */
  datatype Tally = Tally(total: nat, topic: nat, due: nat, fires: nat)

  function Plus(t: Tally, s: Gate): Tally {
    Tally(t.total + s.total, t.topic + s.topic, t.due + s.due, t.fires + s.fires)
  }

  function Sessions(all: seq<seq<Emb>>, cadence: nat, sim: (Emb, Emb) -> real): Tally {
    if all == [] then Tally(0, 0, 0, 0)
    else Plus(Sessions(all[..|all| - 1], cadence, sim), Session(all[|all| - 1], cadence, sim))
  }

  /** The loop over one session, adding to the totals. */
  method SimulateSession(embs: seq<Emb>, cadence: nat, sim: (Emb, Emb) -> real, t0: Tally) returns (t: Tally)
    ensures t == Plus(t0, Session(embs, cadence, sim))
  {
    var total, topic, due, fires := t0.total, t0.topic, t0.due, t0.fires;
    var lastRerankTurn: Option<nat> := None;
    var prevEmb: Option<Emb> := None;
    for turnCount := 0 to |embs|
      invariant var s := Session(embs[..turnCount], cadence, sim);
                && Tally(total, topic, due, fires) == Plus(t0, s)
                && lastRerankTurn == s.last && prevEmb == s.prev
    {
      var emb := embs[turnCount];
      assert embs[..turnCount + 1][..turnCount] == embs[..turnCount];
      LastIsEarlier(embs[..turnCount], cadence, sim);
      if emb == [] {
        continue;
      }
      var topicChanged := match prevEmb case Some(p) => sim(emb, p) < TOPIC_CHANGE_THRESHOLD case None => false;
      total := total + 1;
      var fire := true;
      if topicChanged {
        topic := topic + 1;
      } else if lastRerankTurn.Some? {
        var last := lastRerankTurn.value;
        fire := cadence <= 1 || turnCount - last >= cadence;
        if fire {
          due := due + 1;
        }
      }
      if fire {
        fires := fires + 1;
        lastRerankTurn := Some(turnCount);
      }
      prevEmb := Some(emb);
    }
    assert embs[..|embs|] == embs;
    t := Tally(total, topic, due, fires);
  }

  lemma SessionsStep(all: seq<seq<Emb>>, i: nat, cadence: nat, sim: (Emb, Emb) -> real)
    requires i < |all|
    ensures Sessions(all[..i + 1], cadence, sim) == Plus(Sessions(all[..i], cadence, sim), Session(all[i], cadence, sim))
  {
    var upto := all[..i + 1];
    assert upto[..i] == all[..i] && upto[i] == all[i];
    assert |upto| - 1 == i;
  }

  method SimulateSessions(all: seq<seq<Emb>>, cadence: nat, sim: (Emb, Emb) -> real) returns (t: Tally)
    ensures t == Sessions(all, cadence, sim)
  {
    t := Tally(0, 0, 0, 0);
    for i := 0 to |all|
      invariant t == Sessions(all[..i], cadence, sim)
    {
      SessionsStep(all, i, cadence, sim);
      t := SimulateSession(all[i], cadence, sim, t);
    }
    assert all[..|all|] == all;
  }

  // ---------------------------------------------------------------- what every session keeps

  lemma {:induction false} LastIsEarlier(embs: seq<Emb>, cadence: nat, sim: (Emb, Emb) -> real)
    ensures var s := Session(embs, cadence, sim); s.last.Some? ==> s.last.value < |embs|
    decreases |embs|
  {
    if embs != [] {
      LastIsEarlier(embs[..|embs| - 1], cadence, sim);
    }
  }

  ghost predicate SomeEmbedded(embs: seq<Emb>) {
    exists i :: 0 <= i < |embs| && embs[i] != []
  }

  function CountEmbedded(embs: seq<Emb>): nat {
    if embs == [] then 0
    else CountEmbedded(embs[..|embs| - 1]) + (if embs[|embs| - 1] == [] then 0 else 1)
  }

  /** `last` is the latest turn fired at. */
  ghost predicate LastOf(last: Option<nat>, firedAt: set<nat>) {
    match last
    case None => firedAt == {}
    case Some(l) => l in firedAt && forall f :: f in firedAt ==> f <= l
  }

  /** Every fire has one reason; the first embedded turn of a session is one. */
  lemma {:induction false} SessionCounts(embs: seq<Emb>, cadence: nat, sim: (Emb, Emb) -> real)
    ensures var s := Session(embs, cadence, sim);
            && s.total == CountEmbedded(embs)
            && s.fires == |s.firedAt| == s.topic + s.due + (if SomeEmbedded(embs) then 1 else 0)
            && LastOf(s.last, s.firedAt)
            && (s.last.None? <==> !SomeEmbedded(embs)) && (s.prev.None? <==> !SomeEmbedded(embs))
    decreases |embs|
  {
    if embs != [] {
      var n := |embs| - 1;
      var s := Session(embs[..n], cadence, sim);
      SessionCounts(embs[..n], cadence, sim);
      LastIsEarlier(embs[..n], cadence, sim);
      SomeEmbeddedStep(embs);
      assert n !in s.firedAt;
    }
  }

  lemma SomeEmbeddedStep(embs: seq<Emb>)
    requires embs != []
    ensures SomeEmbedded(embs) <==> SomeEmbedded(embs[..|embs| - 1]) || embs[|embs| - 1] != []
  {
  }

  /** After `n` turns: the last fire has used up no more than the turns since. */
  ghost predicate Amortized(s: Gate, n: nat, c: nat) {
    match s.last
    case None => s.total == 0 && s.fires == 0
    case Some(l) =>
      l < n && s.fires >= 1 && s.total <= c * (s.fires - 1) + (n - l) && s.total <= c * s.fires
  }

  lemma TurnKeepsAmortized(s: Gate, n: nat, emb: Emb, cadence: nat, sim: (Emb, Emb) -> real)
    requires Amortized(s, n, Max(1, cadence)) && (s.last.None? ==> s.prev.None?)
    ensures Amortized(Turn(s, n, emb, cadence, sim), n + 1, Max(1, cadence))
  {
  }

  /** At most `max(1, cadence)` embedded turns for each fire. */
  lemma {:induction false} SessionAmortized(embs: seq<Emb>, cadence: nat, sim: (Emb, Emb) -> real)
    ensures Amortized(Session(embs, cadence, sim), |embs|, Max(1, cadence))
    ensures Session(embs, cadence, sim).total <= Max(1, cadence) * Session(embs, cadence, sim).fires
    decreases |embs|
  {
    if embs != [] {
      var n := |embs| - 1;
      SessionAmortized(embs[..n], cadence, sim);
      SessionCounts(embs[..n], cadence, sim);
      TurnKeepsAmortized(Session(embs[..n], cadence, sim), n, embs[n], cadence, sim);
    }
  }

  lemma AddBounds(c: nat, x: nat, a: nat, y: nat, b: nat)
    requires x <= c * a && y <= c * b
    ensures x + y <= c * (a + b)
  {
  }

  /** Over any set of sessions. */
  lemma {:induction false} SessionsAmortized(all: seq<seq<Emb>>, cadence: nat, sim: (Emb, Emb) -> real)
    ensures Sessions(all, cadence, sim).total <= Max(1, cadence) * Sessions(all, cadence, sim).fires
    decreases |all|
  {
    if all != [] {
      var n := |all| - 1;
      var t, s := Sessions(all[..n], cadence, sim), Session(all[n], cadence, sim);
      SessionsAmortized(all[..n], cadence, sim);
      SessionAmortized(all[n], cadence, sim);
      AddBounds(Max(1, cadence), t.total, t.fires, s.total, s.fires);
      assert Sessions(all, cadence, sim) == Plus(t, s);
    }
  }

  /** The breakdown that is printed adds up: topic fires, cadence fires, and one
      first fire for each session with an embedded turn. */
  lemma {:induction false} SessionsBreakdown(all: seq<seq<Emb>>, cadence: nat, sim: (Emb, Emb) -> real)
    ensures var t := Sessions(all, cadence, sim); t.fires == t.topic + t.due + CountLive(all)
    decreases |all|
  {
    if all != [] {
      SessionsBreakdown(all[..|all| - 1], cadence, sim);
      SessionCounts(all[|all| - 1], cadence, sim);
    }
  }

  /** The sessions with an embedded turn. */
  ghost function CountLive(all: seq<seq<Emb>>): nat {
    if all == [] then 0
    else CountLive(all[..|all| - 1]) + (if SomeEmbedded(all[|all| - 1]) then 1 else 0)
  }

  // ---------------------------------------------------------------- when it fires

  /** Turn `p` is the embedded turn before `t`. */
  ghost predicate IsPrevious(embs: seq<Emb>, p: nat, t: nat)
    requires t < |embs|
  {
    p < t && embs[p] != [] && forall q :: p < q < t ==> embs[q] == []
  }

  /** The session drifted at `t` from its previous embedded turn. */
  ghost predicate DriftedAt(embs: seq<Emb>, t: nat, sim: (Emb, Emb) -> real)
    requires t < |embs|
  {
    exists p: nat :: IsPrevious(embs, p, t) && sim(embs[t], embs[p]) < 0.3
  }

  ghost predicate FirstEmbedded(embs: seq<Emb>, t: nat)
    requires t < |embs|
  {
    forall q :: 0 <= q < t ==> embs[q] == []
  }

  /** The reasons to fire at `t`, without the gate's memory. */
  ghost predicate ShouldFire(embs: seq<Emb>, t: nat, firedAt: set<nat>, cadence: nat, sim: (Emb, Emb) -> real)
    requires t < |embs|
  {
    && embs[t] != []
    && (|| FirstEmbedded(embs, t)
        || DriftedAt(embs, t, sim)
        || cadence <= 1
        || (forall f :: f in firedAt && f < t ==> f + cadence <= t))
  }

  ghost predicate PrevIsLatest(embs: seq<Emb>, prev: Option<Emb>) {
    match prev
    case None => forall q :: 0 <= q < |embs| ==> embs[q] == []
    case Some(e) => exists p :: 0 <= p < |embs| && embs[p] == e != [] && forall q :: p < q < |embs| ==> embs[q] == []
  }

  lemma {:induction false} PrevTracked(embs: seq<Emb>, cadence: nat, sim: (Emb, Emb) -> real)
    ensures PrevIsLatest(embs, Session(embs, cadence, sim).prev)
    decreases |embs|
  {
    if embs != [] {
      var n := |embs| - 1;
      PrevTracked(embs[..n], cadence, sim);
      if embs[n] != [] {
        assert embs[n] == embs[n] != [];
      } else if Session(embs[..n], cadence, sim).prev.Some? {
        var e := Session(embs[..n], cadence, sim).prev.value;
        var p :| 0 <= p < n && embs[..n][p] == e != [] && forall q :: p < q < n ==> embs[..n][q] == [];
        assert embs[p] == e;
        forall q | p < q < |embs|
          ensures embs[q] == []
        {
          if q < n {
            assert embs[..n][q] == [];
          }
        }
      } else {
        forall q | 0 <= q < |embs|
          ensures embs[q] == []
        {
          if q < n {
            assert embs[..n][q] == [];
          }
        }
      }
    }
  }

  lemma DriftMeaning(embs: seq<Emb>, prev: Option<Emb>, sim: (Emb, Emb) -> real)
    requires embs != [] && PrevIsLatest(embs[..|embs| - 1], prev)
    ensures prev.None? <==> FirstEmbedded(embs, |embs| - 1)
    ensures Drifted(prev, embs[|embs| - 1], sim) <==> DriftedAt(embs, |embs| - 1, sim)
  {
    var n := |embs| - 1;
    var before := embs[..n];
    forall q | 0 <= q < n
      ensures before[q] == embs[q]
    {
    }
    if prev.Some? {
      var p :| 0 <= p < n && before[p] == prev.value != [] && forall q :: p < q < n ==> before[q] == [];
      assert embs[p] == prev.value;
      assert IsPrevious(embs, p, n);
      forall p2: nat | IsPrevious(embs, p2, n)
        ensures p2 == p
      {
      }
    }
  }

  lemma DriftLocal(embs: seq<Emb>, t: nat, sim: (Emb, Emb) -> real)
    requires t < |embs| - 1
    ensures DriftedAt(embs[..|embs| - 1], t, sim) <==> DriftedAt(embs, t, sim)
    ensures FirstEmbedded(embs[..|embs| - 1], t) <==> FirstEmbedded(embs, t)
  {
    var before := embs[..|embs| - 1];
    forall q | 0 <= q <= t
      ensures before[q] == embs[q]
    {
    }
    forall p: nat
      ensures IsPrevious(before, p, t) <==> IsPrevious(embs, p, t)
    {
    }
  }

  lemma DriftNow(embs: seq<Emb>, cadence: nat, sim: (Emb, Emb) -> real)
    requires embs != []
    ensures var s, n := Session(embs[..|embs| - 1], cadence, sim), |embs| - 1;
            && (Drifted(s.prev, embs[n], sim) <==> DriftedAt(embs, n, sim))
            && (s.last.None? <==> FirstEmbedded(embs, n))
  {
    var n := |embs| - 1;
    PrevTracked(embs[..n], cadence, sim);
    DriftMeaning(embs, Session(embs[..n], cadence, sim).prev, sim);
    SessionCounts(embs[..n], cadence, sim);
  }

  lemma FiredEarlier(embs: seq<Emb>, cadence: nat, sim: (Emb, Emb) -> real)
    ensures forall f :: f in Session(embs, cadence, sim).firedAt ==> f < |embs|
  {
    SessionCounts(embs, cadence, sim);
    LastIsEarlier(embs, cadence, sim);
  }

  /** What one turn adds, in terms of the turns alone. */
  lemma TurnAdds(embs: seq<Emb>, cadence: nat, sim: (Emb, Emb) -> real)
    requires embs != []
    ensures var s, s1, n := Session(embs[..|embs| - 1], cadence, sim), Session(embs, cadence, sim), |embs| - 1;
            && s1.firedAt == s.firedAt + (if n in s1.firedAt then {n} else {})
            && (n in s1.firedAt <==> ShouldFire(embs, n, s.firedAt, cadence, sim))
            && s1.topic == s.topic + (if n in s1.firedAt && DriftedAt(embs, n, sim) then 1 else 0)
            && s1.due == s.due + (if n in s1.firedAt && !DriftedAt(embs, n, sim) && !FirstEmbedded(embs, n) then 1 else 0)
  {
    var n := |embs| - 1;
    SessionCounts(embs[..n], cadence, sim);
    FiredEarlier(embs[..n], cadence, sim);
    DriftNow(embs, cadence, sim);
  }

  /** A turn fires exactly when it is the first embedded one, drifted from the
      previous one, or lies a full cadence after every earlier fire. */
  lemma {:induction false} FiresExactly(embs: seq<Emb>, cadence: nat, sim: (Emb, Emb) -> real, t: nat)
    requires t < |embs|
    ensures var fired := Session(embs, cadence, sim).firedAt;
            t in fired <==> ShouldFire(embs, t, fired, cadence, sim)
    decreases |embs|
  {
    var n := |embs| - 1;
    var before := Session(embs[..n], cadence, sim).firedAt;
    FiredEarlier(embs[..n], cadence, sim);
    TurnAdds(embs, cadence, sim);
    if t < n {
      FiresExactly(embs[..n], cadence, sim, t);
      ShouldFireLocal(embs, t, before, Session(embs, cadence, sim).firedAt, cadence, sim);
    }
  }

  /** Whether a turn should fire depends only on what came before it. */
  lemma ShouldFireLocal(embs: seq<Emb>, t: nat, fired: set<nat>, fired1: set<nat>, cadence: nat, sim: (Emb, Emb) -> real)
    requires t < |embs| - 1
    requires forall f :: f < t ==> (f in fired <==> f in fired1)
    ensures ShouldFire(embs[..|embs| - 1], t, fired, cadence, sim) <==> ShouldFire(embs, t, fired1, cadence, sim)
  {
    DriftLocal(embs, t, sim);
  }

  // ---------------------------------------------------------------- the reasons, counted

  ghost function EmbeddedTurns(embs: seq<Emb>): set<nat> {
    set t: nat | t < |embs| && embs[t] != []
  }

  /** The turns that fired on a change of topic. */
  ghost function TopicFires(embs: seq<Emb>, fired: set<nat>, sim: (Emb, Emb) -> real): set<nat> {
    set t: nat | t in fired && t < |embs| && DriftedAt(embs, t, sim)
  }

  /** The turns that fired for no other reason than the cadence. */
  ghost function DueFires(embs: seq<Emb>, fired: set<nat>, sim: (Emb, Emb) -> real): set<nat> {
    set t: nat | t in fired && t < |embs| && !DriftedAt(embs, t, sim) && !FirstEmbedded(embs, t)
  }

  /** The reasons to fire, with one turn more. */
  lemma ReasonsStep(embs: seq<Emb>, fired: set<nat>, fired1: set<nat>, sim: (Emb, Emb) -> real)
    requires embs != [] && fired1 <= fired + {|embs| - 1} && fired <= fired1
    requires forall f :: f in fired ==> f < |embs| - 1
    ensures var n, before := |embs| - 1, embs[..|embs| - 1];
            && TopicFires(embs, fired1, sim)
               == TopicFires(before, fired, sim) + (if n in fired1 && DriftedAt(embs, n, sim) then {n} else {})
            && DueFires(embs, fired1, sim)
               == DueFires(before, fired, sim)
                  + (if n in fired1 && !DriftedAt(embs, n, sim) && !FirstEmbedded(embs, n) then {n} else {})
  {
    var n, before := |embs| - 1, embs[..|embs| - 1];
    forall t: nat | t < n
      ensures DriftedAt(before, t, sim) <==> DriftedAt(embs, t, sim)
      ensures FirstEmbedded(before, t) <==> FirstEmbedded(embs, t)
    {
      DriftLocal(embs, t, sim);
    }
  }

  lemma OneMore(a: set<nat>, n: nat, more: bool)
    requires n !in a
    ensures |a + (if more then {n} else {})| == |a| + (if more then 1 else 0)
  {
  }

  /** Each counter is the number of turns it is meant to count. */
  lemma {:induction false} ReasonsCounted(embs: seq<Emb>, cadence: nat, sim: (Emb, Emb) -> real)
    ensures var s := Session(embs, cadence, sim);
            && s.fires == |s.firedAt|
            && s.topic == |TopicFires(embs, s.firedAt, sim)|
            && s.due == |DueFires(embs, s.firedAt, sim)|
    decreases |embs|
  {
    SessionCounts(embs, cadence, sim);
    if embs == [] {
      assert TopicFires(embs, {}, sim) == {} && DueFires(embs, {}, sim) == {};
    } else {
      var n := |embs| - 1;
      var fired, fired1 := Session(embs[..n], cadence, sim).firedAt, Session(embs, cadence, sim).firedAt;
      ReasonsCounted(embs[..n], cadence, sim);
      FiredEarlier(embs[..n], cadence, sim);
      TurnAdds(embs, cadence, sim);
      ReasonsStep(embs, fired, fired1, sim);
      OneMore(TopicFires(embs[..n], fired, sim), n, n in fired1 && DriftedAt(embs, n, sim));
      OneMore(DueFires(embs[..n], fired, sim), n, n in fired1 && !DriftedAt(embs, n, sim) && !FirstEmbedded(embs, n));
    }
  }

  lemma {:induction false} EmbeddedCounted(embs: seq<Emb>, cadence: nat, sim: (Emb, Emb) -> real)
    ensures Session(embs, cadence, sim).total == |EmbeddedTurns(embs)|
    decreases |embs|
  {
    if embs == [] {
      assert EmbeddedTurns(embs) == {};
    } else {
      var n := |embs| - 1;
      EmbeddedCounted(embs[..n], cadence, sim);
      assert EmbeddedTurns(embs) == EmbeddedTurns(embs[..n]) + (if embs[n] != [] then {n} else {});
      OneMore(EmbeddedTurns(embs[..n]), n, embs[n] != []);
    }
  }

  /** The four numbers that are printed. */
  datatype Counter = Turns | ByTopic | ByCadence | AllFires

  /** What one session adds: how many turns were embedded, how many fired on a
      change of topic, on the cadence alone, and at all. */
  ghost function Counts(embs: seq<Emb>, cadence: nat, sim: (Emb, Emb) -> real, c: Counter): nat {
    var fired := Session(embs, cadence, sim).firedAt;
    match c
    case Turns => |EmbeddedTurns(embs)|
    case ByTopic => |TopicFires(embs, fired, sim)|
    case ByCadence => |DueFires(embs, fired, sim)|
    case AllFires => |fired|
  }

  ghost function Counted(s: Gate, c: Counter): nat {
    match c
    case Turns => s.total
    case ByTopic => s.topic
    case ByCadence => s.due
    case AllFires => s.fires
  }

  lemma SessionCounted(embs: seq<Emb>, cadence: nat, sim: (Emb, Emb) -> real, c: Counter)
    ensures Counted(Session(embs, cadence, sim), c) == Counts(embs, cadence, sim, c)
  {
    ReasonsCounted(embs, cadence, sim);
    EmbeddedCounted(embs, cadence, sim);
  }

  lemma PlusPrinted(t: Tally, s: Gate, c: Counter)
    ensures Printed(Plus(t, s), c) == Printed(t, c) + Counted(s, c)
  {
  }

  ghost function Printed(t: Tally, c: Counter): nat {
    match c
    case Turns => t.total
    case ByTopic => t.topic
    case ByCadence => t.due
    case AllFires => t.fires
  }

  ghost function PerSession(all: seq<seq<Emb>>, cadence: nat, sim: (Emb, Emb) -> real, c: Counter): nat -> nat {
    (i: nat) => if i < |all| then Counts(all[i], cadence, sim, c) else 0
  }

  ghost function Below(n: nat): (s: set<nat>)
    ensures forall i: nat :: i in s <==> i < n
  {
    if n == 0 then {} else Below(n - 1) + {n - 1}
  }

  /** The sum over the first `n` sessions. */
  ghost function SumFirst(all: seq<seq<Emb>>, n: nat, cadence: nat, sim: (Emb, Emb) -> real, c: Counter): nat {
    SumOf(Below(n), PerSession(all, cadence, sim, c))
  }

  lemma PerSessionAt(all: seq<seq<Emb>>, cadence: nat, sim: (Emb, Emb) -> real, c: Counter, i: nat)
    requires i < |all|
    ensures PerSession(all, cadence, sim, c)(i) == Counts(all[i], cadence, sim, c)
  {
  }

  lemma SumFirstStep(all: seq<seq<Emb>>, cadence: nat, sim: (Emb, Emb) -> real, c: Counter)
    requires all != []
    ensures SumFirst(all, |all|, cadence, sim, c)
            == SumFirst(all[..|all| - 1], |all| - 1, cadence, sim, c) + Counts(all[|all| - 1], cadence, sim, c)
  {
    var n := |all| - 1;
    var before := all[..n];
    forall i | i in Below(n)
      ensures PerSession(before, cadence, sim, c)(i) == PerSession(all, cadence, sim, c)(i)
    {
      PerSessionAt(before, cadence, sim, c, i);
      PerSessionAt(all, cadence, sim, c, i);
    }
    PerSessionAt(all, cadence, sim, c, n);
    SumOneMore(PerSession(before, cadence, sim, c), PerSession(all, cadence, sim, c), n);
  }

  lemma SumOneMore(f: nat -> nat, g: nat -> nat, n: nat)
    requires forall i :: i in Below(n) ==> f(i) == g(i)
    ensures SumOf(Below(n + 1), g) == SumOf(Below(n), f) + g(n)
  {
    SumSame(Below(n), f, g);
    SumAdd(Below(n), g, n);
  }

  /** Each number is the sum over the sessions of what it is meant to count. */
  lemma {:induction false} SessionsAreSums(all: seq<seq<Emb>>, cadence: nat, sim: (Emb, Emb) -> real, c: Counter)
    ensures Printed(Sessions(all, cadence, sim), c) == SumFirst(all, |all|, cadence, sim, c)
    decreases |all|
  {
    if all != [] {
      var n := |all| - 1;
      SessionsAreSums(all[..n], cadence, sim, c);
      SumFirstStep(all, cadence, sim, c);
      SessionCounted(all[n], cadence, sim, c);
      PlusPrinted(Sessions(all[..n], cadence, sim), Session(all[n], cadence, sim), c);
    }
  }

  // ---------------------------------------------------------------- the novelty gate

  type IdSet = set<string>

  /** The counters and memory of the gate, with the turns it fired at. `since` is
      the number of counted turns since the last fire, if any. */
  datatype Novelty = Novelty(total: nat, fires: nat, surfaced: IdSet, since: Option<nat>, firedAt: set<nat>)

  /** One turn with the ids of its pool; a turn without an embedding has none. */
  function NoveltyTurn(s: Novelty, t: nat, turn: Option<IdSet>, cadence: nat): Novelty {
    match turn
    case None => s
    case Some(ids) =>
      if !(ids <= s.surfaced) && (s.since.None? || s.since.value >= cadence) then
        Novelty(s.total + 1, s.fires + 1, s.surfaced + ids, Some(0), s.firedAt + {t})
      else
        s.(total := s.total + 1, since := if s.since.None? then None else Some(s.since.value + 1))
  }

  function NoveltySession(turns: seq<Option<IdSet>>, cadence: nat): Novelty {
    if turns == [] then Novelty(0, 0, {}, None, {})
    else NoveltyTurn(NoveltySession(turns[..|turns| - 1], cadence), |turns| - 1, turns[|turns| - 1], cadence)
  }

  method SimulateNovelty(turns: seq<Option<IdSet>>, cadence: nat, total0: nat, fires0: nat) returns (total: nat, fires: nat)
    ensures var s := NoveltySession(turns, cadence); total == total0 + s.total && fires == fires0 + s.fires
  {
    total, fires := total0, fires0;
    var surfaced: IdSet := {};
    var since: Option<nat> := None;
    for idx := 0 to |turns|
      invariant var s := NoveltySession(turns[..idx], cadence);
                && total == total0 + s.total && fires == fires0 + s.fires
                && surfaced == s.surfaced && since == s.since
    {
      assert turns[..idx + 1][..idx] == turns[..idx];
      if turns[idx].None? {
        continue;
      }
      var ids := turns[idx].value;
      total := total + 1;
      var hasNew := exists id :: id in ids && id !in surfaced;
      var cadenceOk := since.None? || since.value >= cadence;
      if hasNew && cadenceOk {
        fires := fires + 1;
        since := Some(0);
        surfaced := surfaced + ids;
      } else if since.Some? {
        since := Some(since.value + 1);
      }
    }
    assert turns[..|turns|] == turns;
  }

  /** Every fire surfaces an id that was not surfaced before, so no session fires
      more often than its pools have ids. */
  lemma {:induction false} NoveltyBoundedByCorpus(turns: seq<Option<IdSet>>, cadence: nat, corpus: IdSet)
    requires forall i :: 0 <= i < |turns| && turns[i].Some? ==> turns[i].value <= corpus
    ensures var s := NoveltySession(turns, cadence);
            s.fires <= |s.surfaced| <= |corpus| && s.surfaced <= corpus
    decreases |turns|
  {
    if turns == [] {
      SubsetSize({}, corpus);
    } else {
      var n := |turns| - 1;
      var s, s1 := NoveltySession(turns[..n], cadence), NoveltySession(turns, cadence);
      forall i | 0 <= i < n && turns[..n][i].Some?
        ensures turns[..n][i].value <= corpus
      {
        assert turns[..n][i] == turns[i];
      }
      NoveltyBoundedByCorpus(turns[..n], cadence, corpus);
      SubsetSize(s.surfaced, s1.surfaced);
      SubsetSize(s1.surfaced, corpus);
    }
  }

  /** Fires are `cadence + 1` counted turns apart, so many fires need many turns. */
  lemma {:induction false} NoveltySpacing(turns: seq<Option<IdSet>>, cadence: nat)
    ensures var s := NoveltySession(turns, cadence);
            && (s.since.None? <==> s.fires == 0)
            && (s.since.Some? ==> s.total >= (s.fires - 1) * (cadence + 1) + 1 + s.since.value)
    decreases |turns|
  {
    if turns != [] {
      var n := |turns| - 1;
      var s := NoveltySession(turns[..n], cadence);
      NoveltySpacing(turns[..n], cadence);
      assert (s.fires + 1 - 1) * (cadence + 1) == (s.fires - 1) * (cadence + 1) + (cadence + 1);
    }
  }

  /** Without a cadence nothing a turn retrieved stays unsurfaced. */
  lemma {:induction false} NoveltyComplete(turns: seq<Option<IdSet>>, i: nat)
    requires i < |turns| && turns[i].Some?
    ensures turns[i].value <= NoveltySession(turns, 0).surfaced
    decreases |turns|
  {
    var n := |turns| - 1;
    if i < n {
      assert turns[..n][i] == turns[i];
      NoveltyComplete(turns[..n], i);
    }
  }

  /** Only ids of counted turns are ever surfaced. */
  lemma {:induction false} NoveltySound(turns: seq<Option<IdSet>>, cadence: nat, id: string)
    requires id in NoveltySession(turns, cadence).surfaced
    ensures exists i :: 0 <= i < |turns| && turns[i].Some? && id in turns[i].value
    decreases |turns|
  {
    if turns != [] {
      var n := |turns| - 1;
      if id in NoveltySession(turns[..n], cadence).surfaced {
        NoveltySound(turns[..n], cadence, id);
        var i :| 0 <= i < n && turns[..n][i].Some? && id in turns[..n][i].value;
        assert turns[i] == turns[..n][i];
      } else {
        assert turns[n].Some? && id in turns[n].value;
      }
    }
  }

  // ---------------------------------------------------------------- when the novelty gate fires

  ghost function CountedTurns(turns: seq<Option<IdSet>>): set<nat> {
    set q: nat | q < |turns| && turns[q].Some?
  }

  /** The counted turns strictly between two turns. */
  ghost function CountedBetween(turns: seq<Option<IdSet>>, a: nat, b: nat): set<nat> {
    set q: nat | a < q < b && q < |turns| && turns[q].Some?
  }

  ghost predicate SurfacedAt(turns: seq<Option<IdSet>>, f: nat, id: string) {
    f < |turns| && turns[f].Some? && id in turns[f].value
  }

  /** The pool of turn `t` holds an id that no earlier fired pool holds. */
  ghost predicate HasNew(turns: seq<Option<IdSet>>, t: nat, firedAt: set<nat>)
    requires t < |turns| && turns[t].Some?
  {
    exists id :: id in turns[t].value && forall f :: f in firedAt && f < t ==> !SurfacedAt(turns, f, id)
  }

  /** At least `cadence` counted turns lie between every earlier fire and `t`. */
  ghost predicate Spaced(turns: seq<Option<IdSet>>, t: nat, firedAt: set<nat>, cadence: nat) {
    forall f :: f in firedAt && f < t ==> |CountedBetween(turns, f, t)| >= cadence
  }

  ghost predicate NoveltyShouldFire(turns: seq<Option<IdSet>>, t: nat, firedAt: set<nat>, cadence: nat)
    requires t < |turns|
  {
    turns[t].Some? && HasNew(turns, t, firedAt) && Spaced(turns, t, firedAt, cadence)
  }

  /** What the memory of the gate stands for. */
  ghost predicate NoveltyMemory(turns: seq<Option<IdSet>>, s: Novelty) {
    && (forall f :: f in s.firedAt ==> f < |turns|)
    && (forall id :: id in s.surfaced <==> exists f :: f in s.firedAt && SurfacedAt(turns, f, id))
    && match s.since
       case None => s.firedAt == {}
       case Some(k) => exists l :: l in s.firedAt && IsLatest(l, s.firedAt) && k == |CountedBetween(turns, l, |turns|)|
  }

  ghost predicate IsLatest(l: nat, firedAt: set<nat>) {
    forall f :: f in firedAt ==> f <= l
  }

  lemma CountedLocal(turns: seq<Option<IdSet>>, a: nat, b: nat)
    requires turns != [] && b <= |turns| - 1
    ensures CountedBetween(turns[..|turns| - 1], a, b) == CountedBetween(turns, a, b)
  {
  }

  lemma CountedOneMore(turns: seq<Option<IdSet>>, a: nat)
    requires turns != [] && a < |turns| - 1
    ensures |CountedBetween(turns, a, |turns|)|
            == |CountedBetween(turns[..|turns| - 1], a, |turns| - 1)| + (if turns[|turns| - 1].Some? then 1 else 0)
  {
    var n := |turns| - 1;
    assert CountedBetween(turns, a, |turns|) == CountedBetween(turns[..n], a, n) + (if turns[n].Some? then {n} else {});
  }

  lemma SurfacedLocal(turns: seq<Option<IdSet>>, f: nat, id: string)
    requires turns != [] && f < |turns| - 1
    ensures SurfacedAt(turns[..|turns| - 1], f, id) <==> SurfacedAt(turns, f, id)
  {
  }

  lemma SurfacedStep(turns: seq<Option<IdSet>>, s: Novelty, s1: Novelty)
    requires turns != [] && NoveltyMemory(turns[..|turns| - 1], s)
    requires (s1.firedAt == s.firedAt && s1.surfaced == s.surfaced)
             || (turns[|turns| - 1].Some? && s1.firedAt == s.firedAt + {|turns| - 1}
                 && s1.surfaced == s.surfaced + turns[|turns| - 1].value)
    ensures forall id :: id in s1.surfaced <==> exists f :: f in s1.firedAt && SurfacedAt(turns, f, id)
  {
    var n := |turns| - 1;
    forall id
      ensures id in s1.surfaced <==> exists f :: f in s1.firedAt && SurfacedAt(turns, f, id)
    {
      if f :| f in s.firedAt && SurfacedAt(turns[..n], f, id) {
        SurfacedLocal(turns, f, id);
        assert f in s1.firedAt && SurfacedAt(turns, f, id);
      }
      if f :| f in s1.firedAt && SurfacedAt(turns, f, id) && f < n {
        SurfacedLocal(turns, f, id);
      }
      if id in s1.surfaced && id !in s.surfaced {
        assert n in s1.firedAt && SurfacedAt(turns, n, id);
      }
    }
  }

  lemma NoveltyMemoryStep(turns: seq<Option<IdSet>>, s: Novelty, cadence: nat)
    requires turns != [] && NoveltyMemory(turns[..|turns| - 1], s)
    ensures NoveltyMemory(turns, NoveltyTurn(s, |turns| - 1, turns[|turns| - 1], cadence))
  {
    var n := |turns| - 1;
    var s1 := NoveltyTurn(s, n, turns[n], cadence);
    SurfacedStep(turns, s, s1);
    if n in s1.firedAt {
      assert CountedBetween(turns, n, |turns|) == {};
      assert IsLatest(n, s1.firedAt);
    } else if s.since.Some? {
      var l :| l in s.firedAt && IsLatest(l, s.firedAt) && s.since.value == |CountedBetween(turns[..n], l, n)|;
      CountedOneMore(turns, l);
      assert IsLatest(l, s1.firedAt);
    }
  }

  lemma {:induction false} NoveltyRemembers(turns: seq<Option<IdSet>>, cadence: nat)
    ensures NoveltyMemory(turns, NoveltySession(turns, cadence))
    decreases |turns|
  {
    if turns != [] {
      NoveltyRemembers(turns[..|turns| - 1], cadence);
      NoveltyMemoryStep(turns, NoveltySession(turns[..|turns| - 1], cadence), cadence);
    }
  }

  lemma CountedShrinks(turns: seq<Option<IdSet>>, a: nat, b: nat, t: nat)
    requires a <= b
    ensures |CountedBetween(turns, b, t)| <= |CountedBetween(turns, a, t)|
  {
    SubsetSize(CountedBetween(turns, b, t), CountedBetween(turns, a, t));
  }

  /** The memory decides as the turns before would. */
  lemma NoveltyDecides(turns: seq<Option<IdSet>>, s: Novelty, cadence: nat)
    requires turns != [] && NoveltyMemory(turns[..|turns| - 1], s)
    requires turns[|turns| - 1].Some?
    ensures !(turns[|turns| - 1].value <= s.surfaced) <==> HasNew(turns, |turns| - 1, s.firedAt)
    ensures (s.since.None? || s.since.value >= cadence) <==> Spaced(turns, |turns| - 1, s.firedAt, cadence)
  {
    var n := |turns| - 1;
    SurfacedStep(turns, s, s);
    if s.since.Some? {
      var l :| l in s.firedAt && IsLatest(l, s.firedAt) && s.since.value == |CountedBetween(turns[..n], l, n)|;
      CountedLocal(turns, l, n);
      forall f | f in s.firedAt
        ensures |CountedBetween(turns, f, n)| >= s.since.value
      {
        CountedShrinks(turns, f, l, n);
      }
    }
  }

  lemma NoveltyLocal(turns: seq<Option<IdSet>>, t: nat, fired: set<nat>, fired1: set<nat>, cadence: nat)
    requires t < |turns| - 1 && forall f :: f < t ==> (f in fired <==> f in fired1)
    ensures NoveltyShouldFire(turns[..|turns| - 1], t, fired, cadence) <==> NoveltyShouldFire(turns, t, fired1, cadence)
  {
    var before := turns[..|turns| - 1];
    forall f: nat | f < t
      ensures CountedBetween(before, f, t) == CountedBetween(turns, f, t)
      ensures forall id :: SurfacedAt(before, f, id) <==> SurfacedAt(turns, f, id)
    {
      CountedLocal(turns, f, t);
    }
    assert Spaced(before, t, fired, cadence) <==> Spaced(turns, t, fired1, cadence);
    if turns[t].Some? {
      assert HasNew(before, t, fired) <==> HasNew(turns, t, fired1);
    }
  }

  /** A turn fires exactly when it is counted, its pool holds an id of no earlier
      fired pool, and a full cadence of counted turns lies since every earlier fire. */
  lemma {:induction false} NoveltyFiresExactly(turns: seq<Option<IdSet>>, cadence: nat, t: nat)
    requires t < |turns|
    ensures var fired := NoveltySession(turns, cadence).firedAt;
            t in fired <==> NoveltyShouldFire(turns, t, fired, cadence)
    decreases |turns|
  {
    var n := |turns| - 1;
    var s, s1 := NoveltySession(turns[..n], cadence), NoveltySession(turns, cadence);
    NoveltyRemembers(turns[..n], cadence);
    if t < n {
      NoveltyFiresExactly(turns[..n], cadence, t);
      NoveltyLocal(turns, t, s.firedAt, s1.firedAt, cadence);
    } else {
      if turns[n].Some? {
        NoveltyDecides(turns, s, cadence);
      }
      NoveltyOwnTurn(turns, s.firedAt, s1.firedAt, cadence);
    }
  }

  /** Whether the last turn fires does not depend on it having fired. */
  lemma NoveltyOwnTurn(turns: seq<Option<IdSet>>, fired: set<nat>, fired1: set<nat>, cadence: nat)
    requires turns != [] && forall f :: f < |turns| - 1 ==> (f in fired <==> f in fired1)
    ensures NoveltyShouldFire(turns, |turns| - 1, fired, cadence) <==> NoveltyShouldFire(turns, |turns| - 1, fired1, cadence)
  {
  }

  lemma NoveltyFiredEarlier(turns: seq<Option<IdSet>>, cadence: nat)
    ensures forall f :: f in NoveltySession(turns, cadence).firedAt ==> f < |turns|
  {
    NoveltyRemembers(turns, cadence);
  }

  /** The two counters are the numbers of counted and of fired turns. */
  lemma {:induction false} NoveltyCounted(turns: seq<Option<IdSet>>, cadence: nat)
    ensures var s := NoveltySession(turns, cadence);
            s.total == |CountedTurns(turns)| && s.fires == |s.firedAt|
    decreases |turns|
  {
    if turns == [] {
      assert CountedTurns(turns) == {};
    } else {
      var n := |turns| - 1;
      NoveltyCounted(turns[..n], cadence);
      NoveltyFiredEarlier(turns[..n], cadence);
      assert CountedTurns(turns) == CountedTurns(turns[..n]) + (if turns[n].Some? then {n} else {});
      OneMore(CountedTurns(turns[..n]), n, turns[n].Some?);
    }
  }
}
