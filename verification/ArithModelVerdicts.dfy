/** What the validator's verdicts are worth. */
module ArithModelVerdicts {
  import opened Basics
  import opened Terms
  import opened ArithModelTables
  import opened ArithModelSemantics
  import opened ArithModelValidator
  import opened ArithModelSorts
  import opened ArithModelArrays
  import opened ArithModelExtensions
  import opened ArithModelSoundness

  /** The arrays among a node's children have elements whose different tokens are different things. */
  ghost predicate SeparateAt(ir: Dag, t: Tables, w: World, id: nat)
    requires Ordered(ir) && id < |ir|
  {
    forall k: nat | k < |ir[id].children| && ir[ir[id].children[k]].sort.ArraySort? ::
      Separate(t, w, ir[ir[id].children[k]].sort.element)
  }

  /** No function is applied to arrays with two handles for one element. */
  ghost predicate SeparateArguments(ir: Dag, t: Tables, w: World)
    requires Ordered(ir)
  {
    forall id: nat | id < |ir| && ir[id].op.UFApply? :: SeparateAt(ir, t, w, id)
  }

  /** No such arrays are compared. */
  ghost predicate SeparateComparisons(ir: Dag, t: Tables, w: World)
    requires Ordered(ir)
  {
    forall id: nat | id < |ir| && (ir[id].op.Eq? || ir[id].op.Distinct?) :: SeparateAt(ir, t, w, id)
  }

  /** What is known of a node whose children were evaluated right. */
  ghost predicate Ready(ir: Dag, t: Tables, i: Interpretation, id: nat, vs: seq<Value>, ms: seq<Meaning>)
    requires Ordered(ir)
  {
    && id < |ir| && WellSorted(ir) && Extends(ir, t, i) && SeparateArguments(ir, t, i.world)
    && |vs| == |ms| == |ir[id].children| && ChildrenSound(ir, t, i.world, id, vs, ms)
    && (forall k: nat | k < |vs| :: vs[k] == Evaluate(ir, t, ir[id].children[k]))
    && Evaluate(ir, t, id) == Step(ir, t, id, vs)
  }

  lemma {:induction false} PairExact(ir: Dag, t: Tables, i: Interpretation, id: nat, vs: seq<Value>, ms: seq<Meaning>, k: nat, l: nat)
    requires Ordered(ir) && Ready(ir, t, i, id, vs, ms) && (ir[id].op.Eq? || ir[id].op.Distinct?) && k < |vs| && l < |vs|
    ensures var sort := ir[ir[id].children[k]].sort;
            && (Compare(t, sort, vs[k], vs[l]) == Some(true) ==> SameMeaning(i.world, sort, ms[k], ms[l]))
            && (Compare(t, sort, vs[k], vs[l]) == Some(false) ==>
                  (!SameMeaning(i.world, sort, ms[k], ms[l]) <==> RealPair(ir, t, i.world, id, k, l)))
  {
    hide Compare, SameMeaning, HasSort, Matches, Evaluate, Step, RealDifference, Extends, SeparateArguments;
    var sorts := ChildSorts(ir, id);
    assert WellSortedAt(ir, id) && WellSortedAt(ir, ir[id].children[k]);
    assert sorts[k] == sorts[l];
    CompareExact(t, i.world, sorts[k], vs[k], vs[l], ms[k], ms[l]);
  }

  /** Whether all pairs are known to differ, and whether they do. */
  ghost predicate ComparedDistinct(ir: Dag, t: Tables, id: nat, vs: seq<Value>)
    requires Ordered(ir) && id < |ir| && |vs| == |ir[id].children|
  {
    forall k: nat, l: nat | k < l < |vs| :: Compare(t, ir[ir[id].children[k]].sort, vs[k], vs[l]) == Some(false)
  }

  lemma {:induction false} OneAnswer(c: Option<bool>)
    requires c != Some(true) && c != None
    ensures c == Some(false)
  {
    if c.Some? {
      var answer: bool := c.value;
      assert c == Some(answer);
    }
  }

  lemma {:induction false} DistinctAnswers(ir: Dag, t: Tables, id: nat, vs: seq<Value>)
    requires Ordered(ir) && id < |ir| && ir[id].op.Distinct? && |vs| == |ir[id].children|
    ensures Step(ir, t, id, vs) == Known(Truth(true)) ==> ComparedDistinct(ir, t, id, vs)
    ensures Step(ir, t, id, vs) == Known(Truth(false)) ==>
              exists k: nat, l: nat :: k < l < |vs| && Compare(t, ir[ir[id].children[k]].sort, vs[k], vs[l]) == Some(true)
    ensures Step(ir, t, id, vs) in {Unknown, Known(Truth(true)), Known(Truth(false))}
  {
    hide Compare;
    if Step(ir, t, id, vs) == Known(Truth(true)) {
      forall k: nat, l: nat | k < l < |vs| ensures Compare(t, ir[ir[id].children[k]].sort, vs[k], vs[l]) == Some(false) {
        var c := Compare(t, ir[ir[id].children[k]].sort, vs[k], vs[l]);
        assert c != Some(true) && c != None;
        OneAnswer(c);
      }
    }
  }

  lemma {:induction false} DistinctExact(ir: Dag, t: Tables, i: Interpretation, id: nat, vs: seq<Value>, ms: seq<Meaning>)
    requires Ordered(ir) && Ready(ir, t, i, id, vs, ms) && ir[id].op.Distinct?
    ensures Matches(t, i.world, ir[id].sort, Step(ir, t, id, vs), Denote(ir, i, id, ms)) <==> TrustedAt(ir, t, i.world, id)
  {
    hide Compare, SameMeaning, Evaluate, Step, RealPair, ChildrenSound, WellSorted, Extends, SeparateArguments;
    var c, w := ir[id].children, i.world;
    DistinctAnswers(ir, t, id, vs);
    forall k: nat, l: nat | k < l < |vs|
      ensures var sort := ir[c[k]].sort;
              && (Compare(t, sort, vs[k], vs[l]) == Some(true) ==> SameMeaning(w, sort, ms[k], ms[l]))
              && (Compare(t, sort, vs[k], vs[l]) == Some(false) ==> (!SameMeaning(w, sort, ms[k], ms[l]) <==> RealPair(ir, t, w, id, k, l)))
    {
      PairExact(ir, t, i, id, vs, ms, k, l);
    }
  }

  lemma {:induction false} EqExact(ir: Dag, t: Tables, i: Interpretation, id: nat, vs: seq<Value>, ms: seq<Meaning>)
    requires Ordered(ir) && Ready(ir, t, i, id, vs, ms) && ir[id].op.Eq?
    ensures Matches(t, i.world, ir[id].sort, Step(ir, t, id, vs), Denote(ir, i, id, ms)) <==> TrustedAt(ir, t, i.world, id)
  {
    hide Compare, SameMeaning, Evaluate, RealPair, ChildrenSound, WellSorted, Extends, SeparateArguments, DenoteContents;
    if |vs| == 2 {
      PairExact(ir, t, i, id, vs, ms, 0, 1);
      if Compare(t, ir[ir[id].children[0]].sort, vs[0], vs[1]) != Some(false) {
        OnlyDifferencesDoubted(ir, t, i.world, id, vs, 0, 1);
      }
    }
  }

  lemma {:induction false} OnlyDifferencesDoubted(ir: Dag, t: Tables, w: World, id: nat, vs: seq<Value>, k: nat, l: nat)
    requires Ordered(ir) && id < |ir| && |vs| == |ir[id].children| && k < |vs| && l < |vs|
    requires vs[k] == Evaluate(ir, t, ir[id].children[k]) && vs[l] == Evaluate(ir, t, ir[id].children[l])
    requires Compare(t, ir[ir[id].children[k]].sort, vs[k], vs[l]) != Some(false)
    ensures RealPair(ir, t, w, id, k, l)
  {
    hide Evaluate, EqualArrays, ContentsDiffer;
  }

  lemma {:induction false} ApplicationSound(ir: Dag, t: Tables, i: Interpretation, id: nat, vs: seq<Value>, ms: seq<Meaning>)
    requires Ordered(ir) && Ready(ir, t, i, id, vs, ms) && ir[id].op.UFApply?
    ensures Matches(t, i.world, ir[id].sort, Step(ir, t, id, vs), Denote(ir, i, id, ms))
  {
    hide ApplyTable, Matches, HasSort, Separate, FunctionIn, ExtendsFunction, Evaluate;
    var sorts, w := ChildSorts(ir, id), i.world;
    UnknownMatches(t, w, ir[id].sort, Denote(ir, i, id, ms));
    if ir[id].op.symbol in t.functions {
      assert TablesInAt(ir, t, w.universe, id) && ExtendsAt(ir, t, i, id) && SeparateAt(ir, t, w, id);
      forall k: nat | k < |vs| ensures ArgumentSound(t, w, sorts[k], vs[k], ms[k]) {
        assert WellSortedAt(ir, ir[id].children[k]);
      }
      ApplySound(t, i, ir[id].op.symbol, t.functions[ir[id].op.symbol], sorts, ir[id].sort, vs, ms);
    }
  }

  lemma {:induction false} RelationSound(ir: Dag, t: Tables, i: Interpretation, id: nat, vs: seq<Value>, ms: seq<Meaning>)
    requires Ordered(ir) && id < |ir| && |vs| == |ir[id].children| && Agreeing(vs, ms)
    requires var op := ir[id].op; op.Lt? || op.Leq? || op.Gt? || op.Geq?
    ensures Matches(t, i.world, ir[id].sort, Step(ir, t, id, vs), Denote(ir, i, id, ms))
  {
    hide SameMeaning, DenoteContents;
  }

  lemma {:induction false} ForwardSound(ir: Dag, t: Tables, i: Interpretation, id: nat, vs: seq<Value>, ms: seq<Meaning>)
    requires Ordered(ir) && Ready(ir, t, i, id, vs, ms)
    requires var op := ir[id].op; op.Ite? || op.ToReal? || op.BoolConst? || op.NumConst? || op.Variable? || op.Unsupported?
    ensures Matches(t, i.world, ir[id].sort, Step(ir, t, id, vs), Denote(ir, i, id, ms))
  {
    hide SameMeaning, DenoteContents, HasSort, Evaluate, Lookup, Says, SaidMeans, TablesIn, SeparateArguments;
    var sorts := ChildSorts(ir, id);
    SoundAgrees(ir, t, i.world, id, vs, ms);
    assert WellSortedAt(ir, id) && ExtendsAt(ir, t, i, id);
    if ir[id].op.Variable? {
      LookupMatches(t, i.world, ir[id].op.name, ir[id].sort, i.variable(ir[id].op.name, ir[id].sort));
    }
    forall k: nat | k < |vs| ensures Matches(t, i.world, sorts[k], vs[k], ms[k]) {
    }
  }

  /** A node evaluated from right children is right, but for a comparison that cannot be relied on. */
  lemma {:induction false} StepExact(ir: Dag, t: Tables, i: Interpretation, id: nat, vs: seq<Value>, ms: seq<Meaning>)
    requires Ordered(ir) && Ready(ir, t, i, id, vs, ms)
    ensures Matches(t, i.world, ir[id].sort, Step(ir, t, id, vs), Denote(ir, i, id, ms)) <==> TrustedAt(ir, t, i.world, id)
  {
    hide Step, Denote, Matches, Evaluate, RealPair, ChildrenSound, WellSortedAt, ExtendsAt, SeparateAt, TablesIn;
    var op := ir[id].op;
    if op.Eq? {
      EqExact(ir, t, i, id, vs, ms);
    } else if op.Distinct? {
      DistinctExact(ir, t, i, id, vs, ms);
    } else {
      assert TrustedAt(ir, t, i.world, id) && WellSortedAt(ir, id);
      if op.Add? || op.Sub? || op.Mul? || op.Div? || op.Mod? || op.Neg? || op.Abs? || op.ToInt? || op.IsInt? {
        SoundAgrees(ir, t, i.world, id, vs, ms);
        ArithmeticSound(ir, t, i, id, vs, ms);
      } else if op.And? || op.Or? || op.Not? || op.Implies? || op.Xor? {
        SoundAgrees(ir, t, i.world, id, vs, ms);
        BooleanSound(ir, t, i, id, vs, ms);
      } else if op.Lt? || op.Leq? || op.Gt? || op.Geq? {
        SoundAgrees(ir, t, i.world, id, vs, ms);
        RelationSound(ir, t, i, id, vs, ms);
      } else if op.Select? {
        SelectSound(ir, t, i, id, vs, ms);
      } else if op.Store? {
        StoreSound(ir, t, i, id, vs, ms);
      } else if op.ConstArray? {
        ConstArraySound(ir, t, i, id, vs, ms);
      } else if op.UFApply? {
        ApplicationSound(ir, t, i, id, vs, ms);
      } else {
        ForwardSound(ir, t, i, id, vs, ms);
      }
    }
  }

  ghost predicate RightAt(ir: Dag, t: Tables, i: Interpretation, id: nat)
    requires Ordered(ir) && id < |ir|
  {
    Matches(t, i.world, ir[id].sort, Evaluate(ir, t, id), Mean(ir, i, id))
  }

  /** The term and everything below it evaluate to what they mean. */
  ghost predicate Right(ir: Dag, t: Tables, i: Interpretation, id: nat)
    requires Ordered(ir) && id < |ir|
    decreases id
  {
    RightAt(ir, t, i, id) && forall k: nat | k < |ir[id].children| :: Right(ir, t, i, ir[id].children[k])
  }

  lemma {:induction false} NodeExact(ir: Dag, t: Tables, i: Interpretation, id: nat)
    requires Ordered(ir) && WellSorted(ir) && Extends(ir, t, i) && SeparateArguments(ir, t, i.world) && id < |ir|
    requires forall k: nat | k < |ir[id].children| :: RightAt(ir, t, i, ir[id].children[k])
    ensures RightAt(ir, t, i, id) <==> TrustedAt(ir, t, i.world, id)
  {
    hide Step, Denote, Matches, HasSort, TrustedAt, WellSorted, TablesIn, ExtendsAt, SeparateArguments;
    var c := ir[id].children;
    var vs := seq(|c|, k requires 0 <= k < |c| => Evaluate(ir, t, c[k]));
    var ms := seq(|c|, k requires 0 <= k < |c| => Mean(ir, i, c[k]));
    forall k: nat | k < |c|
      ensures Matches(t, i.world, ChildSorts(ir, id)[k], vs[k], ms[k]) && HasSort(t, i.world.universe, ChildSorts(ir, id)[k], vs[k])
    {
      assert RightAt(ir, t, i, c[k]);
      EvaluateSorted(ir, t, i.world.universe, c[k]);
    }
    StepExact(ir, t, i, id, vs, ms);
  }

  /** In every extension, a term and what is below it are evaluated right exactly when the array
      comparisons below it can be relied on. */
  lemma {:induction false} RightExactly(ir: Dag, t: Tables, i: Interpretation, id: nat)
    requires Ordered(ir) && WellSorted(ir) && Extends(ir, t, i) && SeparateArguments(ir, t, i.world) && id < |ir|
    ensures Right(ir, t, i, id) <==> Trusted(ir, t, i.world, id)
    decreases id
  {
    hide RightAt, TrustedAt, WellSorted, Extends, SeparateArguments;
    var c := ir[id].children;
    forall k: nat | k < |c| ensures Right(ir, t, i, c[k]) <==> Trusted(ir, t, i.world, c[k]) {
      RightExactly(ir, t, i, c[k]);
    }
    if forall k: nat | k < |c| :: Right(ir, t, i, c[k]) {
      NodeExact(ir, t, i, id);
    }
  }

  /** What has to hold of an interpretation for a definite value of the term to be binding. */
  ghost predicate Reliable(ir: Dag, t: Tables, i: Interpretation, id: nat)
    requires Ordered(ir) && id < |ir|
  {
    Extends(ir, t, i) && SeparateArguments(ir, t, i.world) && Trusted(ir, t, i.world, id)
  }

  /** A definite value is the meaning. */
  lemma {:induction false} EvaluateSound(ir: Dag, t: Tables, i: Interpretation, id: nat)
    requires Ordered(ir) && WellSorted(ir) && id < |ir| && Reliable(ir, t, i, id)
    ensures Matches(t, i.world, ir[id].sort, Evaluate(ir, t, id), Mean(ir, i, id))
  {
    hide Matches, Evaluate, Mean, WellSorted, Extends, SeparateArguments, Trusted;
    RightExactly(ir, t, i, id);
  }

  /** Without nested arrays among what is compared, every comparison can be relied on. */
  lemma {:induction false} SeparateTrusted(ir: Dag, t: Tables, i: Interpretation, id: nat)
    requires Ordered(ir) && WellSorted(ir) && TablesIn(ir, t, i.world.universe) && SeparateComparisons(ir, t, i.world) && id < |ir|
    ensures Trusted(ir, t, i.world, id)
    decreases id
  {
    hide HasSort, Evaluate, WellSortedAt, SeparateAt, TablesIn, RealPair;
    var c, w := ir[id].children, i.world;
    forall k: nat | k < |c| ensures Trusted(ir, t, w, c[k]) {
      SeparateTrusted(ir, t, i, c[k]);
    }
    if ir[id].op.Eq? || ir[id].op.Distinct? {
      forall k: nat, l: nat | k < |c| && l < |c| ensures RealPair(ir, t, w, id, k, l) {
        SeparatePair(ir, t, w, id, k, l);
      }
    }
  }

  lemma {:induction false} SeparatePair(ir: Dag, t: Tables, w: World, id: nat, k: nat, l: nat)
    requires Ordered(ir) && WellSorted(ir) && TablesIn(ir, t, w.universe) && id < |ir| && SeparateAt(ir, t, w, id)
    requires (ir[id].op.Eq? || ir[id].op.Distinct?) && k < |ir[id].children| && l < |ir[id].children|
    ensures RealPair(ir, t, w, id, k, l)
  {
    hide Evaluate, TablesIn, Separate, EqualArrays, ContentsIn, ContentsDiffer;
    var c := ir[id].children;
    assert WellSortedAt(ir, id);
    assert ChildSorts(ir, id)[k] == ChildSorts(ir, id)[l];
    EvaluateSorted(ir, t, w.universe, c[k]);
    EvaluateSorted(ir, t, w.universe, c[l]);
    var sort, a, b := ir[c[k]].sort, Evaluate(ir, t, c[k]), Evaluate(ir, t, c[l]);
    if sort.ArraySort? && a.Array? && b.Array? && EqualArrays(a.contents, b.contents, sort.index) == Some(false) {
      SeparateReal(t, w, sort, a.contents, b.contents);
    }
  }

  /** Comparisons and function arguments are scalars and arrays of scalars. */
  predicate FlatAt(ir: Dag, id: nat)
    requires Ordered(ir) && id < |ir|
  {
    ir[id].op.Eq? || ir[id].op.Distinct? || ir[id].op.UFApply? ==>
      forall k: nat | k < |ir[id].children| :: Flat(ir[ir[id].children[k]].sort)
  }

  lemma {:induction false} FlatReliable(ir: Dag, t: Tables, i: Interpretation, id: nat)
    requires Ordered(ir) && WellSorted(ir) && Extends(ir, t, i) && id < |ir| && forall x: nat | x < |ir| :: FlatAt(ir, x)
    ensures Reliable(ir, t, i, id)
  {
    hide WellSorted, ExtendsAt, TablesIn, Separate, Trusted;
    forall x: nat | x < |ir| && (ir[x].op.UFApply? || ir[x].op.Eq? || ir[x].op.Distinct?) ensures SeparateAt(ir, t, i.world, x) {
      assert FlatAt(ir, x);
      forall k: nat | k < |ir[x].children| && ir[ir[x].children[k]].sort.ArraySort?
        ensures Separate(t, i.world, ir[ir[x].children[k]].sort.element)
      {
        ScalarsSeparate(t, i.world, ir[ir[x].children[k]].sort.element);
      }
    }
    SeparateTrusted(ir, t, i, id);
  }

  ghost predicate Denotes(ir: Dag, i: Interpretation, id: nat, truth: bool)
    requires Ordered(ir)
  {
    id < |ir| && Mean(ir, i, id) == Plain(Truth(truth))
  }

  /** Satisfied: every assertion is true in every extension it is reliable in.  Violated: one
      assertion is false in all of them. */
  lemma {:induction false} VerdictSound(ir: Dag, t: Tables, assertions: seq<nat>)
    requires Ordered(ir) && WellSorted(ir)
    ensures VerdictOf(ir, t, assertions) == Satisfied ==>
      forall i, a: nat | a in assertions && (a < |ir| ==> Reliable(ir, t, i, a)) :: Denotes(ir, i, a, true)
    ensures VerdictOf(ir, t, assertions) == Violated ==>
      exists a: nat :: a in assertions && a < |ir| && forall i | Reliable(ir, t, i, a) :: Denotes(ir, i, a, false)
  {
    hide Step, Denote, Reliable, Mean, WellSorted;
    forall i, a: nat | a in assertions && a < |ir| && Reliable(ir, t, i, a)
      ensures Matches(t, i.world, ir[a].sort, Evaluate(ir, t, a), Mean(ir, i, a))
    {
      EvaluateSound(ir, t, i, a);
    }
  }

  /** Arrays of scalars are never mistaken: there the verdicts hold in every extension. */
  lemma {:induction false} FlatVerdictSound(ir: Dag, t: Tables, assertions: seq<nat>)
    requires Ordered(ir) && WellSorted(ir) && forall x: nat | x < |ir| :: FlatAt(ir, x)
    ensures VerdictOf(ir, t, assertions) == Satisfied ==>
      forall i, a: nat | a in assertions && Extends(ir, t, i) :: Denotes(ir, i, a, true)
    ensures VerdictOf(ir, t, assertions) == Violated ==>
      exists a: nat :: a in assertions && a < |ir| && forall i | Extends(ir, t, i) :: Denotes(ir, i, a, false)
  {
    hide Evaluate, Reliable, Denotes, WellSorted, Extends, FlatAt, VerdictOf;
    forall i, a: nat | a < |ir| && Extends(ir, t, i) ensures Reliable(ir, t, i, a) {
      FlatReliable(ir, t, i, a);
    }
    VerdictSound(ir, t, assertions);
  }
}
