/** A comparison of nested arrays that cannot be relied on, and the verdict it spoils. */
module ArithModelNested {
  import opened Basics
  import opened Terms
  import opened ArithModelTables
  import opened ArithModelSemantics
  import opened ArithModelValidator
  import opened ArithModelSorts
  import opened ArithModelArrays
  import opened ArithModelExtensions
  import opened ArithModelVerdicts
  import opened ArithModelSoundness

  function Inner(): Sort { ArraySort(IntSort, IntSort) }

  function Nested(): Sort { ArraySort(IntSort, Inner()) }

  /** `a` and `b` are distinct, as the assertion 2 says. */
  function NestedTerms(): (ir: Dag)
    ensures |ir| == 3 && Ordered(ir)
    ensures ir[0] == Term(Variable("a"), Nested(), []) && ir[1] == Term(Variable("b"), Nested(), [])
    ensures ir[2] == Term(Op.Distinct, BoolSort, [0, 1])
  {
    [Term(Variable("a"), Nested(), []), Term(Variable("b"), Nested(), []), Term(Op.Distinct, BoolSort, [0, 1])]
  }

  function Zero(): Record { Record("Int", "Int", Num(0.0), []) }

  function RowsOf(handle: string): Record { Record("Int", "(Array Int Int)", Opaque(handle), []) }

  /** Every element of both arrays is the zero array, behind one handle in `a` and another in `b`. */
  function NestedTables(): (t: Tables)
    ensures t.functions == map[]
  {
    Tables(Some(map["a" := RowsOf("@h0"), "b" := RowsOf("@h1")]), Some(map["@h0" := Zero(), "@h1" := Zero()]),
           map[], map[], map[], map[], map[], None, None, (_: real) => true)
  }

  lemma {:induction false} NestedSorted()
    ensures WellSorted(NestedTerms()) && OneSignature(NestedTerms())
  {
    hide NestedTerms;
    var ir := NestedTerms();
    forall id: nat | id < |ir| ensures WellSortedAt(ir, id) {
      assert id == 0 || id == 1 || id == 2;
    }
  }

  lemma {:induction false} InnerHandles(w: World, name: string)
    requires name == "@h0" || name == "@h1"
    ensures RecordOf(NestedTables(), Opaque(name)) == Some(Zero()) && Contents(Zero()) == ArrayVal(Num(0.0), map[])
    ensures Belongs(NestedTables(), w.universe, Inner(), Opaque(name))
  {
    hide Spell, TokensDiffer;
    var t, a := NestedTables(), ArrayVal(Num(0.0), map[]);
    assert Contents(Zero()) == a;
    assert RecordOf(t, Opaque(name)) == Some(Zero());
    assert Spell(IntSort) == "Int" by { SpellInt(); }
    assert Belongs(t, w.universe, IntSort, Num(0.0));
  }

  lemma {:induction false} SpellInt()
    ensures Spell(IntSort) == "Int"
  {
  }

  lemma {:induction false} NestedSorts(w: World)
    ensures TablesIn(NestedTerms(), NestedTables(), w.universe)
  {
    hide NestedTerms, Belongs;
    var ir, t := NestedTerms(), NestedTables();
    forall id: nat | id < |ir| ensures TablesInAt(ir, t, w.universe, id) {
      InnerHandles(w, "@h0");
      InnerHandles(w, "@h1");
    }
  }

  function Former(): ArrayVal { ArrayVal(Opaque("@h0"), map[]) }

  function Latter(): ArrayVal { ArrayVal(Opaque("@h1"), map[]) }

  lemma {:induction false} NestedVariables()
    ensures Evaluate(NestedTerms(), NestedTables(), 0) == Array(Former()) && Evaluate(NestedTerms(), NestedTables(), 1) == Array(Latter())
  {
    hide NestedTerms;
    var ir, t := NestedTerms(), NestedTables();
    assert Evaluate(ir, t, 0) == Lookup(t, "a", Nested()) == Array(Former());
    assert Evaluate(ir, t, 1) == Lookup(t, "b", Nested()) == Array(Latter());
  }

  lemma {:induction false} HandlesDiffer()
    ensures EqualArrays(Former(), Latter(), IntSort) == Some(false)
  {
    assert "@h0"[2] != "@h1"[2];
  }

  lemma {:induction false} NestedValues()
    ensures var ir, t := NestedTerms(), NestedTables();
            && Evaluate(ir, t, 0) == Array(Former()) && Evaluate(ir, t, 1) == Array(Latter())
            && Evaluate(ir, t, 2) == Known(Truth(true))
            && EqualArrays(Former(), Latter(), IntSort) == Some(false)
  {
    hide NestedTerms, NestedTables, Former, Latter, EqualArrays;
    var ir, t := NestedTerms(), NestedTables();
    NestedVariables();
    HandlesDiffer();
    var vs := [Array(Former()), Array(Latter())];
    var c := ir[2].children;
    assert vs == seq(|c|, k requires 0 <= k < |c| => Evaluate(ir, t, c[k]));
    assert Compare(t, ir[ir[2].children[0]].sort, vs[0], vs[1]) == Some(false);
    assert Evaluate(ir, t, 2) == Step(ir, t, 2, vs);
  }

  lemma {:induction false} HandlesAlike(w: World)
    ensures !ContentsDiffer(NestedTables(), w, Nested(), Former(), Latter())
  {
    hide Belongs;
    var t, zero := NestedTables(), ArrayVal(Num(0.0), map[]);
    InnerHandles(w, "@h0");
    InnerHandles(w, "@h1");
    assert !ContentsDiffer(t, w, Inner(), zero, zero);
    assert !TokensDiffer(t, w, Inner(), Opaque("@h0"), Opaque("@h1"));
  }

  /** The handles differ and the arrays behind them do not. */
  lemma {:induction false} NestedAlike(w: World)
    ensures !TrustedAt(NestedTerms(), NestedTables(), w, 2)
  {
    hide NestedTerms, Evaluate, EqualArrays;
    var ir, t := NestedTerms(), NestedTables();
    NestedValues();
    HandlesAlike(w);
    assert !RealPair(ir, t, w, 2, 0, 1);
  }

  /** The validator is satisfied by a model of a false assertion, as it compares inner arrays by handle. */
  lemma {:induction false} NestedVerdictWrong(w: World)
    ensures var ir, t := NestedTerms(), NestedTables();
            && WellSorted(ir) && VerdictOf(ir, t, [2]) == Satisfied
            && Extends(ir, t, Completion(ir, t, w))
            && (forall i | Extends(ir, t, i) :: Denotes(ir, i, 2, false))
  {
    hide NestedTerms, NestedTables, Evaluate, TrustedAt, Extends, WellSorted, RightAt, TablesIn, OneSignature;
    var ir, t := NestedTerms(), NestedTables();
    NestedSorted();
    NestedValues();
    NestedSorts(w);
    ExtensionExists(ir, t, w);
    forall i | Extends(ir, t, i) ensures Denotes(ir, i, 2, false) {
      NestedFalse(i);
    }
  }

  lemma {:induction false} DistinctMeans(i: Interpretation)
    ensures var m := Mean(NestedTerms(), i, 2); m == Plain(Truth(true)) || m == Plain(Truth(false))
  {
    hide NestedTerms, SameMeaning;
  }

  lemma {:induction false} VariableRight(i: Interpretation, id: nat)
    requires Extends(NestedTerms(), NestedTables(), i) && id < 2
    ensures RightAt(NestedTerms(), NestedTables(), i, id)
  {
    hide NestedTerms, NestedTables, RightAt, Extends, WellSorted, SeparateArguments, Evaluate;
    var ir, t := NestedTerms(), NestedTables();
    NestedSorted();
    NothingApplied(i.world);
    assert ir[id].op.Variable? && TrustedAt(ir, t, i.world, id);
    NodeExact(ir, t, i, id);
  }

  lemma {:induction false} NothingApplied(w: World)
    ensures SeparateArguments(NestedTerms(), NestedTables(), w)
  {
    hide NestedTerms, NestedTables;
  }

  lemma {:induction false} NestedFalse(i: Interpretation)
    requires Extends(NestedTerms(), NestedTables(), i)
    ensures Denotes(NestedTerms(), i, 2, false)
  {
    hide NestedTerms, NestedTables, Evaluate, Mean, Extends, WellSorted, TrustedAt, SeparateArguments;
    var ir, t := NestedTerms(), NestedTables();
    NestedSorted();
    NestedValues();
    NestedAlike(i.world);
    VariableRight(i, 0);
    VariableRight(i, 1);
    NothingApplied(i.world);
    WrongAt(i);
    DistinctMeans(i);
  }

  lemma {:induction false} WrongAt(i: Interpretation)
    requires var ir, t := NestedTerms(), NestedTables();
             && Extends(ir, t, i) && WellSorted(ir) && SeparateArguments(ir, t, i.world)
             && RightAt(ir, t, i, 0) && RightAt(ir, t, i, 1) && !TrustedAt(ir, t, i.world, 2)
    ensures !RightAt(NestedTerms(), NestedTables(), i, 2)
  {
    hide NestedTerms, NestedTables, RightAt, Extends, WellSorted, TrustedAt, SeparateArguments;
    NodeExact(NestedTerms(), NestedTables(), i, 2);
  }
}
