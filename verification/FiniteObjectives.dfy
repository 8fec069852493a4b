/** Lexicographic optimisation over a finite set of models, one bit at a time. */
module FiniteObjectives {
  import opened Basics

  /** A total assignment of the diagram's variables. */
  type Assignment = nat

  /** A diagram is the set of assignments it accepts; a word is one diagram per bit, least significant first. */
  type Diagram = set<Assignment>
  type Word = seq<Diagram>

  datatype Objective = Objective(bits: Word, maximize: bool, signedOrder: bool)

  function Bit(w: Word, i: nat, m: Assignment): nat
    requires i < |w|
  {
    if m in w[i] then 1 else 0
  }

  /** The number that bits `i` and above spell. */
  function High(w: Word, i: nat, m: Assignment): nat
    requires i <= |w|
    decreases |w| - i
  {
    if i == |w| then 0 else 2 * High(w, i + 1, m) + Bit(w, i, m)
  }

  /** The objective's value: two's complement when signed. */
  function Value(o: Objective, m: Assignment): int
    requires o.bits != []
  {
    High(o.bits, 0, m) - if o.signedOrder && m in o.bits[|o.bits| - 1] then Pow2(|o.bits|) else 0
  }

  predicate PrefersOne(o: Objective, i: nat) {
    o.maximize != (o.signedOrder && i + 1 == |o.bits|)
  }

  /** Bits `i` and above, with a one where the preferred bit is met. */
  function Rank(o: Objective, i: nat, m: Assignment): nat
    requires i <= |o.bits|
    decreases |o.bits| - i
  {
    if i == |o.bits| then 0 else
    2 * Rank(o, i + 1, m) + if (m in o.bits[i]) == PrefersOne(o, i) then 1 else 0
  }

  /** The rank is the value up to a shift, turned around when minimising. */
  lemma {:induction false} RankIsValue(o: Objective, i: nat, m: Assignment)
    requires i < |o.bits|
    ensures var n := |o.bits|;
            var shifted := High(o.bits, i, m) +
              if o.signedOrder then Pow2(n - 1 - i) - (if m in o.bits[n - 1] then Pow2(n - i) else 0) else 0;
            Rank(o, i, m) == if o.maximize then shifted else Pow2(n - i) - 1 - shifted
    decreases |o.bits| - i
  {
    var n := |o.bits|;
    if i + 1 < n {
      RankIsValue(o, i + 1, m);
      assert Pow2(n - i) == 2 * Pow2(n - i - 1) && Pow2(n - 1 - i) == 2 * Pow2(n - 2 - i);
    } else {
      assert Rank(o, n, m) == 0 && High(o.bits, n, m) == 0;
      assert Pow2(1) == 2 * Pow2(0);
    }
  }

  predicate AtLeastAsGood(o: Objective, m: Assignment, other: Assignment)
    requires o.bits != []
  {
    if o.maximize then Value(o, other) <= Value(o, m) else Value(o, m) <= Value(o, other)
  }

  lemma {:induction false} RankOrders(o: Objective, m: Assignment, other: Assignment)
    requires o.bits != []
    ensures AtLeastAsGood(o, m, other) <==> Rank(o, 0, other) <= Rank(o, 0, m)
  {
    RankIsValue(o, 0, m);
    RankIsValue(o, 0, other);
  }

  /** The models that no model beats. */
  ghost function Best(o: Objective, models: Diagram): Diagram
    requires o.bits != []
  {
    set m | m in models && forall other | other in models :: AtLeastAsGood(o, m, other)
  }

  ghost function BestDown(o: Objective, models: Diagram, i: nat): Diagram
    requires i <= |o.bits|
  {
    set m | m in models && forall other | other in models :: Rank(o, i, other) <= Rank(o, i, m)
  }

  /** Choosing the preferred bit among the best so far, if any has it, gives the best one bit further. */
  lemma {:induction false} OneBit(o: Objective, models: Diagram, i: nat, chosen: Diagram)
    requires i < |o.bits| && BestDown(o, models, i + 1) != {}
    requires chosen == (set m | m in BestDown(o, models, i + 1) && (m in o.bits[i]) == PrefersOne(o, i))
    ensures BestDown(o, models, i) == if chosen != {} then chosen else BestDown(o, models, i + 1)
  {
    var best := BestDown(o, models, i + 1);
    var top :| top in best;
    forall m, k | m in best && k in best ensures Rank(o, i + 1, m) == Rank(o, i + 1, k) {
    }
    if w :| w in chosen {
      forall m | m in models ensures Rank(o, i, m) <= Rank(o, i, w) && (Rank(o, i, w) <= Rank(o, i, m) <==> m in chosen) {
      }
    } else {
      forall m | m in models ensures Rank(o, i, m) <= Rank(o, i, top) && (Rank(o, i, top) <= Rank(o, i, m) <==> m in best) {
        assert m in best && (m in o.bits[i]) == PrefersOne(o, i) ==> m in chosen;
        assert (top in o.bits[i]) == PrefersOne(o, i) ==> top in chosen;
      }
    }
  }

  lemma {:induction false} BestIsBestDown(o: Objective, models: Diagram)
    requires o.bits != []
    ensures Best(o, models) == BestDown(o, models, 0)
  {
    forall m, other ensures AtLeastAsGood(o, m, other) <==> Rank(o, 0, other) <= Rank(o, 0, m) {
      RankOrders(o, m, other);
    }
  }

  lemma {:induction false} HighBits(w: Word, i: nat, m: Assignment, low: nat)
    requires i < |w| && High(w, 0, m) == low + Pow2(i) * High(w, i, m)
    ensures High(w, 0, m) == low + Bit(w, i, m) * Pow2(i) + Pow2(i + 1) * High(w, i + 1, m)
  {
    Carried(Pow2(i), High(w, i + 1, m), Bit(w, i, m));
  }

  lemma {:induction false} Carried(p: nat, h: nat, b: nat)
    ensures p * (2 * h + b) == b * p + (2 * p) * h
  {
  }

  /** The objective's value in an assignment, bit by bit. */
  method Evaluate(o: Objective, m: Assignment) returns (value: int)
    requires o.bits != []
    ensures value == Value(o, m)
  {
    var total: nat, weight: nat := 0, 1;
    for i := 0 to |o.bits|
      invariant weight == Pow2(i) && High(o.bits, 0, m) == total + Pow2(i) * High(o.bits, i, m)
    {
      HighBits(o.bits, i, m, total);
      total, weight := total + Bit(o.bits, i, m) * weight, 2 * weight;
    }
    value := total;
    if o.signedOrder && m in o.bits[|o.bits| - 1] {
      value := value - weight;
    }
  }

  /** All models have the value. */
  ghost predicate Shared(o: Objective, models: Diagram, value: int)
    requires o.bits != []
  {
    forall m | m in models :: Value(o, m) == value
  }

  lemma {:induction false} SharedByFewer(o: Objective, models: Diagram, value: int, fewer: Diagram)
    requires o.bits != [] && Shared(o, models, value) && fewer <= models
    ensures Shared(o, fewer, value)
  {
  }

  /** No model has a better value. */
  ghost predicate Bounds(o: Objective, models: Diagram, value: int)
    requires o.bits != []
  {
    forall m | m in models :: if o.maximize then Value(o, m) <= value else value <= Value(o, m)
  }

  /** Keep the models that are best for one objective. */
  method Optimise(o: Objective, models: Diagram, universe: Diagram) returns (result: Diagram, value: int)
    requires o.bits != [] && models != {} && models <= universe
    ensures result == Best(o, models) && result != {}
    ensures Shared(o, result, value) && result <= models
    ensures Bounds(o, models, value)
  {
    result := models;
    var i := |o.bits|;
    assert BestDown(o, models, i) == models;
    while i > 0
      invariant 0 <= i <= |o.bits| && result == BestDown(o, models, i) && result != {}
    {
      i := i - 1;
      var preferred := if PrefersOne(o, i) then o.bits[i] else universe - o.bits[i];
      var other := if PrefersOne(o, i) then universe - o.bits[i] else o.bits[i];
      var chosen := result * preferred;
      assert chosen == set m | m in result && (m in o.bits[i]) == PrefersOne(o, i);
      OneBit(o, models, i, chosen);
      if chosen != {} {
        result := chosen;
      } else {
        assert result * other == result;
        result := result * other;
      }
    }
    BestIsBestDown(o, models);
    var sample :| sample in result;
    value := Evaluate(o, sample);
    forall m | m in result ensures Value(o, m) == value {
      assert AtLeastAsGood(o, m, sample) && AtLeastAsGood(o, sample, m);
    }
    assert forall m | m in models :: AtLeastAsGood(o, sample, m);
  }

  ghost predicate WellFormed(objectives: seq<Objective>) {
    forall i | 0 <= i < |objectives| :: objectives[i].bits != []
  }

  /** The models left after optimising each objective in turn. */
  ghost function Survivors(objectives: seq<Objective>, models: Diagram): Diagram
    requires WellFormed(objectives)
  {
    if objectives == [] then models else
    var n := |objectives| - 1;
    Best(objectives[n], Survivors(objectives[..n], models))
  }

  lemma {:induction false} SurvivorsNone(objectives: seq<Objective>, models: Diagram)
    ensures Survivors(objectives[..0], models) == models
  {
  }

  lemma {:induction false} SurvivorsNext(objectives: seq<Objective>, models: Diagram, k: nat)
    requires WellFormed(objectives) && k < |objectives|
    ensures Survivors(objectives[..k + 1], models) == Best(objectives[k], Survivors(objectives[..k], models))
  {
    assert objectives[..k + 1][..k] == objectives[..k];
  }

  /** Earlier objectives decide first. */
  ghost predicate LexAtLeastAsGood(objectives: seq<Objective>, m: Assignment, other: Assignment)
    requires WellFormed(objectives)
  {
    forall k: nat | k < |objectives| && Value(objectives[k], m) != Value(objectives[k], other) ::
      (forall j: nat | j < k :: Value(objectives[j], m) == Value(objectives[j], other)) ==> AtLeastAsGood(objectives[k], m, other)
  }

  /** Survivors of every step share the values of all objectives so far. */
  lemma {:induction false} SurvivorsShare(objectives: seq<Objective>, models: Diagram, m: Assignment, other: Assignment, k: nat)
    requires WellFormed(objectives) && k < |objectives|
    requires m in Survivors(objectives, models) && other in Survivors(objectives, models)
    ensures Value(objectives[k], m) == Value(objectives[k], other) && m in models
  {
    var n := |objectives| - 1;
    SurvivorsFrom(objectives, models, m);
    if k < n {
      SurvivorsShare(objectives[..n], models, m, other, k);
    } else {
      assert AtLeastAsGood(objectives[n], m, other) && AtLeastAsGood(objectives[n], other, m);
    }
  }

  lemma {:induction false} SurvivorsFrom(objectives: seq<Objective>, models: Diagram, m: Assignment)
    requires WellFormed(objectives) && m in Survivors(objectives, models)
    ensures m in models
  {
    if objectives != [] {
      SurvivorsFrom(objectives[..|objectives| - 1], models, m);
    }
  }

  /** Some model of a finite nonempty set is best. */
  lemma {:induction false} BestExists(o: Objective, models: Diagram)
    requires o.bits != [] && models != {}
    ensures Best(o, models) != {}
  {
    var m :| m in models;
    var rest := models - {m};
    if rest == {} {
      assert models == {m} && m in Best(o, models);
    } else {
      BestExists(o, rest);
      var b :| b in Best(o, rest);
      if AtLeastAsGood(o, b, m) {
        assert b in Best(o, models);
      } else {
        forall other | other in models ensures AtLeastAsGood(o, m, other) {
          assert other == m || AtLeastAsGood(o, b, other);
        }
        assert m in Best(o, models);
      }
    }
  }

  lemma {:induction false} SurvivorsExist(objectives: seq<Objective>, models: Diagram)
    requires WellFormed(objectives) && models != {}
    ensures Survivors(objectives, models) != {}
  {
    if objectives != [] {
      var n := |objectives| - 1;
      SurvivorsExist(objectives[..n], models);
      BestExists(objectives[n], Survivors(objectives[..n], models));
    }
  }

  /** The survivors are exactly the lexicographic optima of the original models. */
  lemma {:induction false} SurvivorsAreOptima(objectives: seq<Objective>, models: Diagram, m: Assignment)
    requires WellFormed(objectives) && m in models
    ensures m in Survivors(objectives, models) <==> forall other | other in models :: LexAtLeastAsGood(objectives, m, other)
  {
    if objectives != [] {
      var n := |objectives| - 1;
      var front := objectives[..n];
      SurvivorsAreOptima(front, models, m);
      if m in Survivors(objectives, models) {
        forall other | other in models ensures LexAtLeastAsGood(objectives, m, other) {
          SurvivorBeats(objectives, models, m, other);
        }
      }
      if forall other | other in models :: LexAtLeastAsGood(objectives, m, other) {
        OptimumSurvives(objectives, models, m);
      }
    }
  }

  lemma {:induction false} SurvivorBeats(objectives: seq<Objective>, models: Diagram, m: Assignment, other: Assignment)
    requires WellFormed(objectives) && m in Survivors(objectives, models) && other in models && objectives != []
    requires LexAtLeastAsGood(objectives[..|objectives| - 1], m, other)
    ensures LexAtLeastAsGood(objectives, m, other)
  {
    var n := |objectives| - 1;
    var front := objectives[..n];
    forall k: nat | k < |objectives| && Value(objectives[k], m) != Value(objectives[k], other) && forall j: nat | j < k :: Value(objectives[j], m) == Value(objectives[j], other)
      ensures AtLeastAsGood(objectives[k], m, other)
    {
      if k < n {
        assert forall j: nat | j < k :: Value(front[j], m) == Value(front[j], other);
        assert front[k] == objectives[k];
      } else {
        EqualValuesSurvive(front, models, m, other);
      }
    }
  }

  /** A model with a survivor's values survives as well. */
  lemma {:induction false} EqualValuesSurvive(objectives: seq<Objective>, models: Diagram, m: Assignment, other: Assignment)
    requires WellFormed(objectives) && m in Survivors(objectives, models) && other in models
    requires forall j: nat | j < |objectives| :: Value(objectives[j], m) == Value(objectives[j], other)
    ensures other in Survivors(objectives, models)
  {
    if objectives != [] {
      var n := |objectives| - 1;
      EqualValuesSurvive(objectives[..n], models, m, other);
      forall x | x in Survivors(objectives[..n], models) ensures AtLeastAsGood(objectives[n], other, x) {
        assert AtLeastAsGood(objectives[n], m, x);
      }
    }
  }

  lemma {:induction false} OptimumSurvives(objectives: seq<Objective>, models: Diagram, m: Assignment)
    requires WellFormed(objectives) && objectives != [] && m in models
    requires forall other | other in models :: LexAtLeastAsGood(objectives, m, other)
    requires (forall other | other in models :: LexAtLeastAsGood(objectives[..|objectives| - 1], m, other)) ==>
               m in Survivors(objectives[..|objectives| - 1], models)
    ensures m in Survivors(objectives, models)
  {
    var n := |objectives| - 1;
    var front := objectives[..n];
    forall other | other in models ensures LexAtLeastAsGood(front, m, other) {
      forall k: nat | k < n && Value(front[k], m) != Value(front[k], other) && forall j: nat | j < k :: Value(front[j], m) == Value(front[j], other)
        ensures AtLeastAsGood(front[k], m, other)
      {
        assert LexAtLeastAsGood(objectives, m, other);
        assert forall j: nat | j < k :: objectives[j] == front[j];
        assert front[k] == objectives[k];
      }
    }
    forall x | x in Survivors(front, models) ensures AtLeastAsGood(objectives[n], m, x) {
      SurvivorsFrom(front, models, x);
      assert LexAtLeastAsGood(objectives, m, x);
      forall j: nat | j < n ensures Value(objectives[j], m) == Value(objectives[j], x) {
        SurvivorsShare(front, models, m, x, j);
        assert front[j] == objectives[j];
      }
    }
  }

  /** The objective loop: every reported value is attained by every surviving model, the
      survivors are the lexicographic optima, and satisfiability is preserved. */
  method Analyze(models: Diagram, objectives: seq<Objective>, universe: Diagram) returns (result: Diagram, values: seq<int>)
    requires WellFormed(objectives) && models <= universe
    ensures result == Survivors(objectives, models) && (result == {} <==> models == {})
    ensures |values| == if models == {} then 0 else |objectives|
    ensures forall i | 0 <= i < |values| :: Shared(objectives[i], result, values[i])
    ensures forall i | 0 <= i < |values| :: Bounds(objectives[i], Survivors(objectives[..i], models), values[i])
  {
    hide Value, Best, Bounds, Shared, Survivors;
    SurvivorsNone(objectives, models);
    result, values := models, [];
    for k := 0 to |objectives|
      invariant result == Survivors(objectives[..k], models) && result <= universe && (result == {} <==> models == {})
      invariant |values| == if models == {} then 0 else k
      invariant forall i | 0 <= i < |values| :: Shared(objectives[i], result, values[i])
      invariant forall i | 0 <= i < |values| :: Bounds(objectives[i], Survivors(objectives[..i], models), values[i])
    {
      SurvivorsNext(objectives, models, k);
      if result == {} {
        NoSurvivors(objectives, models);
        return;
      }
      var best, value := Optimise(objectives[k], result, universe);
      forall i | 0 <= i < k ensures Shared(objectives[i], best, values[i]) {
        SharedByFewer(objectives[i], result, values[i], best);
      }
      result, values := best, values + [value];
    }
    assert objectives[..|objectives|] == objectives;
  }

  lemma {:induction false} NoSurvivors(objectives: seq<Objective>, models: Diagram)
    requires WellFormed(objectives) && models == {}
    ensures Survivors(objectives, models) == {}
  {
    if objectives != [] {
      NoSurvivors(objectives[..|objectives| - 1], models);
    }
  }
}
