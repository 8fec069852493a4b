/** When the tables say enough, validation answers, and its answer is the truth. */
module ArithModelCoverage {
  import opened Basics
  import opened Terms
  import opened ArithModelTables
  import opened ArithModelSemantics
  import opened ArithModelValidator
  import opened ArithModelSorts
  import opened ArithModelArrays
  import opened ArithModelExtensions
  import opened ArithModelSoundness
  import opened ArithModelVerdicts

  predicate All(sorts: seq<Sort>, wanted: Sort) { forall k: nat | k < |sorts| :: sorts[k] == wanted }

  predicate AllNumeric(sorts: seq<Sort>) { forall k: nat | k < |sorts| :: Numeric(sorts[k]) }

  /** The operator has as many operands as it takes, of the kinds it takes. */
  predicate Applied(op: Op, sorts: seq<Sort>) {
    match op
    case Sub => |sorts| >= 1
    case Neg => |sorts| == 1
    case Abs => |sorts| == 1
    case Div => |sorts| == 2
    case Mod => |sorts| == 2 && All(sorts, IntSort)
    case ToReal => |sorts| == 1
    case ToInt => |sorts| == 1 && AllNumeric(sorts)
    case IsInt => |sorts| == 1 && AllNumeric(sorts)
    case Lt => |sorts| == 2 && AllNumeric(sorts)
    case Leq => |sorts| == 2 && AllNumeric(sorts)
    case Gt => |sorts| == 2 && AllNumeric(sorts)
    case Geq => |sorts| == 2 && AllNumeric(sorts)
    case Eq => |sorts| == 2
    case And => All(sorts, BoolSort)
    case Or => All(sorts, BoolSort)
    case Not => |sorts| == 1 && All(sorts, BoolSort)
    case Implies => |sorts| == 2 && All(sorts, BoolSort)
    case Xor => |sorts| >= 1 && All(sorts, BoolSort)
    case Ite => |sorts| == 3 && sorts[0] == BoolSort
    case ConstArray => |sorts| == 1
    case Store => |sorts| == 3
    case Select => |sorts| == 2
    case Unsupported => false
    case _ => true
  }

  /** Two arrays over the index sort can always be compared. */
  predicate Comparable(sort: Sort) {
    sort.ArraySort? ==> sort.index.BoolSort? || sort.index.IntSort? || sort.index.RealSort?
  }

  predicate LegibleKey(t: Tables, sort: Sort, argSort: string, key: Cell) {
    match sort
    case BoolSort => key.truth.Some?
    case IntSort => key.numeral.Numeral? && (argSort == "Int" ==> Integral(key.numeral.q))
    case RealSort => key.numeral.Numeral? && (argSort == "Int" ==> Integral(key.numeral.q))
    case NamedSort(_) => true
    case ArraySort(_, _) =>
      Comparable(sort) && Resolves(t, Opaque(key.text)) && argSort == ArrayName(t.handles.value[key.text])
  }

  /** The stored array is the argument, as far as it is compared. */
  predicate IsKey(t: Tables, index: Sort, a: ArrayVal, key: Cell) {
    Resolves(t, Opaque(key.text)) && EqualArrays(a, Contents(t.handles.value[key.text]), index) == Some(true)
  }

  /** Keys for the same argument. */
  ghost predicate KeysAlike(t: Tables, sort: Sort, a: Cell, b: Cell) {
    match sort
    case BoolSort => a.truth == b.truth
    case IntSort => a.numeral == b.numeral
    case RealSort => a.numeral == b.numeral
    case NamedSort(_) => a.text == b.text
    case ArraySort(index, _) => exists v: ArrayVal :: IsKey(t, index, v, a) && IsKey(t, index, v, b)
  }

  predicate LegibleResult(t: Tables, sort: Sort, cell: Cell) {
    && cell.text != ""
    && match sort
       case BoolSort => cell.truth.Some?
       case IntSort => cell.numeral.Numeral? && Integral(cell.numeral.q)
       case RealSort => cell.numeral.Numeral?
       case NamedSort(_) => cell.numeral.NotNumeral?
       case ArraySort(_, _) => Resolves(t, Opaque(cell.text))
  }

  predicate LegibleRow(t: Tables, f: FunctionTable, sorts: seq<Sort>, row: Row) {
    && |row.args| == |sorts| == |f.argSorts|
    && forall k: nat | k < |sorts| :: LegibleKey(t, sorts[k], f.argSorts[k], row.args[k])
  }

  ghost predicate RowsAlike(t: Tables, sorts: seq<Sort>, q: Row, r: Row) {
    |q.args| == |r.args| == |sorts| && forall k: nat | k < |sorts| :: KeysAlike(t, sorts[k], q.args[k], r.args[k])
  }

  /** A total function: legible, and one result for one list of arguments. */
  ghost predicate Total(t: Tables, f: FunctionTable, sorts: seq<Sort>, sort: Sort) {
    && |f.argSorts| == |sorts|
    && (forall r | r in f.rows :: LegibleRow(t, f, sorts, r) && LegibleResult(t, sort, r.value))
    && LegibleResult(t, sort, f.default)
    && forall q, r | q in f.rows && r in f.rows && RowsAlike(t, sorts, q, r) :: q.value.text == r.value.text
  }

  ghost predicate AllWhole(table: Option<map<int, real>>) {
    table.Some? && forall a | a in table.value :: Integral(table.value[a])
  }

  /** The tables settle the node once its operands are settled. */
  ghost predicate CoveredAt(ir: Dag, t: Tables, id: nat)
    requires Ordered(ir) && id < |ir|
  {
    var n, sorts := ir[id], ChildSorts(ir, id);
    && Applied(n.op, sorts) && Flat(n.sort)
    && match n.op
       case Variable(name) => exists said :: Says(t, name, n.sort, said)
       case UFApply(symbol) => symbol in t.functions && Total(t, t.functions[symbol], sorts, n.sort)
       case Div => Evaluate(ir, t, n.children[1]) == Known(Num(0.0)) ==> n.sort.IntSort? && AllWhole(t.divZero)
       case Mod => Evaluate(ir, t, n.children[1]) == Known(Num(0.0)) ==> AllWhole(t.modZero)
       case Eq => forall k: nat | k < |sorts| :: Comparable(sorts[k])
       case Distinct => forall k: nat | k < |sorts| :: Comparable(sorts[k])
       case Select => Rationals(ir, t, n.children)
       case Store => Rationals(ir, t, n.children)
       case ConstArray => Rationals(ir, t, n.children)
       case _ => true
  }

  /** Operands that serve as tokens are no irrational numbers. */
  ghost predicate Rationals(ir: Dag, t: Tables, ids: seq<nat>)
    requires Ordered(ir)
  {
    forall k: nat | k < |ids| && Evaluate(ir, t, ids[k]).Known? && Evaluate(ir, t, ids[k]).scalar.Num? ::
      t.rational(Evaluate(ir, t, ids[k]).scalar.number)
  }

  ghost predicate Covered(ir: Dag, t: Tables, id: nat)
    requires Ordered(ir) && id < |ir|
    decreases id
  {
    CoveredAt(ir, t, id) && forall k: nat | k < |ir[id].children| :: Covered(ir, t, ir[id].children[k])
  }

  /** The operands' values are known and of their sorts. */
  ghost predicate Settled(ir: Dag, t: Tables, u: Universe, id: nat, vs: seq<Value>)
    requires Ordered(ir)
  {
    && id < |ir| && |vs| == |ir[id].children| && AllHaveSort(t, u, ChildSorts(ir, id), vs)
    && forall k: nat | k < |vs| :: !vs[k].Unknown? && vs[k] == Evaluate(ir, t, ir[id].children[k])
  }

  lemma {:induction false} NumberKnown(t: Tables, u: Universe, sort: Sort, v: Value)
    requires Numeric(sort) && HasSort(t, u, sort, v) && !v.Unknown?
    ensures NumberOf(v).Some? && (sort.IntSort? ==> Integral(NumberOf(v).value))
  {
  }

  lemma {:induction false} BoolKnown(t: Tables, u: Universe, v: Value)
    requires HasSort(t, u, BoolSort, v) && !v.Unknown?
    ensures BoolOf(v).Some? && v == Known(Truth(BoolOf(v).value))
  {
  }

  lemma {:induction false} TotalKnown(xs: seq<Option<real>>)
    requires forall k: nat | k < |xs| :: xs[k].Some?
    ensures ArithModelValidator.Total(xs).Some? && Product(xs).Some?
  {
    if xs != [] {
      TotalKnown(xs[..|xs| - 1]);
    }
  }

  lemma {:induction false} ParityKnown(xs: seq<Option<bool>>)
    requires forall k: nat | k < |xs| :: xs[k].Some?
    ensures Parity(xs).Some?
  {
    if xs != [] {
      ParityKnown(xs[..|xs| - 1]);
    }
  }

  lemma {:induction false} JunctionKnown(vs: seq<Value>, identity: bool)
    requires forall k: nat | k < |vs| :: BoolOf(vs[k]).Some?
    ensures Junction(vs, identity, false) in {Known(Truth(true)), Known(Truth(false))}
  {
    if vs != [] {
      JunctionKnown(vs[1..], identity);
    }
  }

  lemma {:induction false} NumbersKnown(ir: Dag, t: Tables, u: Universe, id: nat, vs: seq<Value>)
    requires Ordered(ir) && Settled(ir, t, u, id, vs) && AllNumeric(ChildSorts(ir, id))
    ensures forall k: nat | k < |vs| :: NumberOf(vs[k]).Some? && (ChildSorts(ir, id)[k].IntSort? ==> Integral(NumberOf(vs[k]).value))
  {
    hide HasSort, NumberOf, Numeric;
    forall k: nat | k < |vs| ensures NumberOf(vs[k]).Some? && (ChildSorts(ir, id)[k].IntSort? ==> Integral(NumberOf(vs[k]).value)) {
      NumberKnown(t, u, ChildSorts(ir, id)[k], vs[k]);
    }
  }

  lemma {:induction false} BoolsKnown(ir: Dag, t: Tables, u: Universe, id: nat, vs: seq<Value>)
    requires Ordered(ir) && Settled(ir, t, u, id, vs) && All(ChildSorts(ir, id), BoolSort)
    ensures forall k: nat | k < |vs| :: BoolOf(vs[k]).Some?
  {
    hide HasSort, BoolOf;
    forall k: nat | k < |vs| ensures BoolOf(vs[k]).Some? {
      assert ChildSorts(ir, id)[k] == BoolSort;
      BoolKnown(t, u, vs[k]);
    }
  }

  predicate Arithmetical(op: Op) {
    op.Add? || op.Sub? || op.Mul? || op.Neg? || op.Abs? || op.ToReal? || op.ToInt? || op.IsInt? || op.Lt? || op.Leq? || op.Gt? || op.Geq?
  }

  lemma {:induction false} ArithmeticDefinite(ir: Dag, t: Tables, u: Universe, id: nat, vs: seq<Value>)
    requires Ordered(ir) && Settled(ir, t, u, id, vs) && id < |ir| && WellSortedAt(ir, id) && CoveredAt(ir, t, id) && Arithmetical(ir[id].op)
    ensures !Step(ir, t, id, vs).Unknown?
  {
    hide HasSort, Evaluate, ArithModelValidator.Total, Product, Settled;
    SettledLength(ir, t, u, id, vs);
    assert AllNumeric(ChildSorts(ir, id));
    NumbersKnown(ir, t, u, id, vs);
    var xs := NumbersOf(vs);
    TotalKnown(xs);
    if ir[id].op.Sub? {
      TotalKnown(NumbersOf(vs[1..]));
    }
  }

  lemma {:induction false} SettledLength(ir: Dag, t: Tables, u: Universe, id: nat, vs: seq<Value>)
    requires Ordered(ir) && Settled(ir, t, u, id, vs)
    ensures id < |ir| && |vs| == |ir[id].children|
  {
  }

  lemma {:induction false} DivisionDefinite(ir: Dag, t: Tables, u: Universe, id: nat, vs: seq<Value>)
    requires Ordered(ir) && Settled(ir, t, u, id, vs) && WellSortedAt(ir, id) && CoveredAt(ir, t, id) && (ir[id].op.Div? || ir[id].op.Mod?)
    ensures !Step(ir, t, id, vs).Unknown?
  {
    hide HasSort, Evaluate;
    var sorts := ChildSorts(ir, id);
    assert AllNumeric(sorts);
    NumbersKnown(ir, t, u, id, vs);
    var a, b := NumberOf(vs[0]).value, NumberOf(vs[1]).value;
    assert vs[1] == Known(Num(b));
    assert ir[id].sort.IntSort? ==> sorts[0].IntSort? && sorts[1].IntSort?;
    if b == 0.0 {
      assert Evaluate(ir, t, ir[id].children[1]) == Known(Num(0.0));
    }
    QuotientsDefinite(t, ir[id].sort, a, b);
  }

  lemma {:induction false} QuotientsDefinite(t: Tables, sort: Sort, a: real, b: real)
    ensures (sort.IntSort? ==> Integral(a) && Integral(b)) && (b == 0.0 ==> sort.IntSort? && AllWhole(t.divZero)) ==> DivValue(t, sort, a, b).Known?
    ensures Integral(a) && Integral(b) && (b == 0.0 ==> AllWhole(t.modZero)) ==> ModValue(t, a, b).Known?
  {
    assert Integral(0.0);
  }

  lemma {:induction false} BooleanDefinite(ir: Dag, t: Tables, u: Universe, id: nat, vs: seq<Value>)
    requires Ordered(ir) && Settled(ir, t, u, id, vs) && WellSortedAt(ir, id) && CoveredAt(ir, t, id)
    requires var op := ir[id].op; op.And? || op.Or? || op.Not? || op.Implies? || op.Xor?
    ensures !Step(ir, t, id, vs).Unknown?
  {
    hide HasSort, Evaluate, Parity, Junction;
    BoolsKnown(ir, t, u, id, vs);
    JunctionKnown(vs, true);
    JunctionKnown(vs, false);
    ParityKnown(BoolsOf(vs));
  }

  lemma {:induction false} CompareDefinite(t: Tables, u: Universe, sort: Sort, a: Value, b: Value)
    requires HasSort(t, u, sort, a) && HasSort(t, u, sort, b) && !a.Unknown? && !b.Unknown? && Comparable(sort)
    ensures Compare(t, sort, a, b).Some?
  {
    hide EqualArrays, ContentsIn;
    if a.Array? && b.Array? {
      ArrayKinds(t, u, sort, a);
      AlwaysDefinite(a.contents, b.contents, sort.index);
    } else {
      ScalarKinds(t, u, sort, a, b);
    }
  }

  lemma {:induction false} ScalarKinds(t: Tables, u: Universe, sort: Sort, a: Value, b: Value)
    requires HasSort(t, u, sort, a) && HasSort(t, u, sort, b) && !a.Unknown? && !b.Unknown? && !(a.Array? && b.Array?)
    ensures a.Known? && b.Known?
    ensures (a.scalar.Num? && b.scalar.Num?) || (!a.scalar.Num? && !b.scalar.Num?)
  {
    hide ContentsIn;
    ArrayKinds(t, u, sort, a);
    ArrayKinds(t, u, sort, b);
  }

  lemma {:induction false} ArrayKinds(t: Tables, u: Universe, sort: Sort, v: Value)
    requires HasSort(t, u, sort, v) && !v.Unknown?
    ensures v.Array? <==> sort.ArraySort?
  {
  }

  lemma {:induction false} ComparisonDefinite(ir: Dag, t: Tables, u: Universe, id: nat, vs: seq<Value>)
    requires Ordered(ir) && Settled(ir, t, u, id, vs) && WellSortedAt(ir, id) && CoveredAt(ir, t, id) && (ir[id].op.Eq? || ir[id].op.Distinct?)
    ensures !Step(ir, t, id, vs).Unknown?
  {
    hide HasSort, Evaluate, Compare;
    var sorts := ChildSorts(ir, id);
    forall k: nat, l: nat | k < l < |vs| ensures Compare(t, ir[ir[id].children[k]].sort, vs[k], vs[l]).Some? {
      assert sorts[k] == sorts[l];
      CompareDefinite(t, u, sorts[k], vs[k], vs[l]);
    }
  }

  lemma {:induction false} TokenKnown(t: Tables, u: Universe, sort: Sort, v: Value)
    requires !sort.ArraySort? && HasSort(t, u, sort, v) && !v.Unknown?
    requires v.Known? && v.scalar.Num? ==> t.rational(v.scalar.number)
    ensures AsToken(t, v).Some?
  {
  }

  lemma {:induction false} ArrayDefinite(ir: Dag, t: Tables, u: Universe, id: nat, vs: seq<Value>)
    requires Ordered(ir) && Settled(ir, t, u, id, vs) && WellSorted(ir) && CoveredAt(ir, t, id)
    requires ir[id].op.Select? || ir[id].op.Store? || ir[id].op.ConstArray?
    requires forall k: nat | k < |vs| :: Flat(ChildSorts(ir, id)[k])
    ensures !Step(ir, t, id, vs).Unknown?
  {
    hide HasSort, Evaluate, AsToken, WellSortedAt;
    var sorts := ChildSorts(ir, id);
    assert WellSortedAt(ir, id);
    RuleHolds(ir, id);
    forall k: nat | k < |vs| ensures if sorts[k].ArraySort? then vs[k].Array? else AsToken(t, vs[k]).Some? {
      assert HasSort(t, u, sorts[k], vs[k]);
      ArrayKinds(t, u, sorts[k], vs[k]);
      if !sorts[k].ArraySort? {
        TokenKnown(t, u, sorts[k], vs[k]);
      }
    }
    if ir[id].op.Select? {
      assert WellSortedAt(ir, ir[id].children[0]);
      RuleHolds(ir, ir[id].children[0]);
    }
  }

  lemma {:induction false} RuleHolds(ir: Dag, id: nat)
    requires Ordered(ir) && id < |ir| && WellSortedAt(ir, id)
    ensures ScalarIndices(ir[id].sort) && Rule(ir[id].op, ir[id].sort, ChildSorts(ir, id))
  {
  }

  /** Legible keys either fit or do not, and those that fit one argument are alike. */
  lemma {:induction false} KeyFitDefinite(t: Tables, u: Universe, sort: Sort, v: Value, key: Cell, argSort: string)
    requires HasSort(t, u, sort, v) && !v.Unknown? && LegibleKey(t, sort, argSort, key)
    ensures KeyFit(t, sort, v, key, argSort) == Fits || KeyFit(t, sort, v, key, argSort) == Differs
  {
    hide EqualArrays, Contents;
    ArrayKinds(t, u, sort, v);
    if v.Array? {
      AlwaysDefinite(v.contents, Contents(t.handles.value[key.text]), sort.index);
    }
  }

  lemma {:induction false} FittingAlike(t: Tables, u: Universe, sort: Sort, v: Value, a: Cell, b: Cell, argSort: string)
    requires HasSort(t, u, sort, v) && !v.Unknown? && LegibleKey(t, sort, argSort, a) && LegibleKey(t, sort, argSort, b)
    requires KeyFit(t, sort, v, a, argSort) == Fits && KeyFit(t, sort, v, b, argSort) == Fits
    ensures KeysAlike(t, sort, a, b)
  {
    hide EqualArrays, Contents;
    ArrayKinds(t, u, sort, v);
    if v.Array? {
      assert IsKey(t, sort.index, v.contents, a) && IsKey(t, sort.index, v.contents, b);
    }
  }

  ghost predicate KnownArguments(t: Tables, u: Universe, sorts: seq<Sort>, vs: seq<Value>) {
    AllHaveSort(t, u, sorts, vs) && forall k: nat | k < |vs| :: !vs[k].Unknown?
  }

  predicate LegibleKeys(t: Tables, sorts: seq<Sort>, argSorts: seq<string>, keys: seq<Cell>) {
    |sorts| == |argSorts| == |keys| && forall k: nat | k < |keys| :: LegibleKey(t, sorts[k], argSorts[k], keys[k])
  }

  lemma {:induction false} RowFitDefinite(t: Tables, u: Universe, sorts: seq<Sort>, vs: seq<Value>, keys: seq<Cell>, argSorts: seq<string>)
    requires KnownArguments(t, u, sorts, vs) && LegibleKeys(t, sorts, argSorts, keys) && |keys| == |vs|
    ensures RowFit(t, sorts, vs, keys, argSorts) == Fits || RowFit(t, sorts, vs, keys, argSorts) == Differs
    ensures RowFit(t, sorts, vs, keys, argSorts) == Fits ==> forall k: nat | k < |vs| :: KeyFit(t, sorts[k], vs[k], keys[k], argSorts[k]) == Fits
  {
    hide HasSort, KeyFit, LegibleKey;
    if vs != [] {
      var m := |vs| - 1;
      RowFitDefinite(t, u, sorts[..m], vs[..m], keys[..m], argSorts[..m]);
      KeyFitDefinite(t, u, sorts[m], vs[m], keys[m], argSorts[m]);
      if RowFit(t, sorts, vs, keys, argSorts) == Fits {
        forall k: nat | k < |vs| ensures KeyFit(t, sorts[k], vs[k], keys[k], argSorts[k]) == Fits {
          if k < m {
            assert KeyFit(t, sorts[..m][k], vs[..m][k], keys[..m][k], argSorts[..m][k]) == Fits;
          }
        }
      }
    }
  }

  ghost predicate FittingRow(t: Tables, f: FunctionTable, sorts: seq<Sort>, vs: seq<Value>, r: Row) {
    && r in f.rows && |sorts| == |vs| == |r.args| == |f.argSorts|
    && RowFit(t, sorts, vs, r.args, f.argSorts) == Fits
  }

  lemma {:induction false} FittingRowsAlike(t: Tables, u: Universe, f: FunctionTable, sorts: seq<Sort>, vs: seq<Value>, q: Row, r: Row)
    requires KnownArguments(t, u, sorts, vs) && FittingRow(t, f, sorts, vs, q) && FittingRow(t, f, sorts, vs, r)
    requires LegibleRow(t, f, sorts, q) && LegibleRow(t, f, sorts, r)
    ensures RowsAlike(t, sorts, q, r)
  {
    hide HasSort, KeyFit, LegibleKey, KeysAlike, RowFit;
    RowFitDefinite(t, u, sorts, vs, q.args, f.argSorts);
    RowFitDefinite(t, u, sorts, vs, r.args, f.argSorts);
    forall k: nat | k < |sorts| ensures KeysAlike(t, sorts[k], q.args[k], r.args[k]) {
      FittingAlike(t, u, sorts[k], vs[k], q.args[k], r.args[k], f.argSorts[k]);
    }
  }

  lemma {:induction false} ScanDefinite(t: Tables, u: Universe, f: FunctionTable, sorts: seq<Sort>, sort: Sort, vs: seq<Value>, n: nat)
    requires KnownArguments(t, u, sorts, vs) && Total(t, f, sorts, sort) && n <= |f.rows|
    ensures Scan(t, f, sorts, vs, n).Some?
    ensures Scan(t, f, sorts, vs, n).value.Some? ==>
              exists r :: FittingRow(t, f, sorts, vs, r) && r.value == Scan(t, f, sorts, vs, n).value.value
  {
    hide HasSort, RowFit, LegibleResult, LegibleKey, KnownArguments;
    if n > 0 {
      assert |vs| == |sorts| by { ArgumentsLength(t, u, sorts, vs); }
      var row := f.rows[n - 1];
      assert row in f.rows && LegibleRow(t, f, sorts, row);
      ScanDefinite(t, u, f, sorts, sort, vs, n - 1);
      RowFitDefinite(t, u, sorts, vs, row.args, f.argSorts);
      var found := Scan(t, f, sorts, vs, n - 1).value;
      if RowFit(t, sorts, vs, row.args, f.argSorts) == Fits {
        assert FittingRow(t, f, sorts, vs, row);
        if found.Some? {
          var r :| FittingRow(t, f, sorts, vs, r) && r.value == found.value;
          assert LegibleRow(t, f, sorts, r);
          FittingRowsAlike(t, u, f, sorts, vs, row, r);
        }
      }
    } else {
      assert |vs| == |sorts| by { ArgumentsLength(t, u, sorts, vs); }
    }
  }

  lemma {:induction false} ArgumentsLength(t: Tables, u: Universe, sorts: seq<Sort>, vs: seq<Value>)
    requires KnownArguments(t, u, sorts, vs)
    ensures |sorts| == |vs|
  {
  }

  lemma {:induction false} ResultDefinite(t: Tables, u: Universe, f: FunctionTable, sort: Sort, cell: Cell)
    requires LegibleResult(t, sort, cell) && f.retSort == Spell(sort) && Interpreted(sort) && CellIn(t, u, sort, cell)
    ensures !ResultOf(t, f, sort, cell).Unknown?
  {
    hide Contents, Belongs;
    if sort.ArraySort? {
      HandleSorted(t, u, sort, Opaque(cell.text));
    }
  }

  lemma {:induction false} ApplicationDefinite(ir: Dag, t: Tables, u: Universe, id: nat, vs: seq<Value>)
    requires Ordered(ir) && Settled(ir, t, u, id, vs) && CoveredAt(ir, t, id) && TablesInAt(ir, t, u, id) && ir[id].op.UFApply?
    ensures !Step(ir, t, id, vs).Unknown?
  {
    hide HasSort, Evaluate, Scan, LegibleResult, LegibleRow, RowsAlike, CellIn, Spell, ResultOf, Belongs;
    var f, sorts, sort := t.functions[ir[id].op.symbol], ChildSorts(ir, id), ir[id].sort;
    ScanDefinite(t, u, f, sorts, sort, vs, |f.rows|);
    var found := Scan(t, f, sorts, vs, |f.rows|).value;
    if found.Some? {
      var r :| FittingRow(t, f, sorts, vs, r) && r.value == found.value;
      ResultDefinite(t, u, f, sort, r.value);
    } else {
      ResultDefinite(t, u, f, sort, f.default);
    }
  }

  /** A node with known operands that the tables cover gets a value. */
  lemma {:induction false} StepDefinite(ir: Dag, t: Tables, u: Universe, id: nat, vs: seq<Value>)
    requires Ordered(ir) && WellSorted(ir) && Settled(ir, t, u, id, vs) && CoveredAt(ir, t, id) && TablesInAt(ir, t, u, id)
    requires forall k: nat | k < |vs| :: Flat(ChildSorts(ir, id)[k])
    ensures !Step(ir, t, id, vs).Unknown?
  {
    hide Evaluate, WellSortedAt, HasSort, TablesInAt;
    var op := ir[id].op;
    assert WellSortedAt(ir, id);
    if Arithmetical(op) {
      ArithmeticDefinite(ir, t, u, id, vs);
    } else if op.Div? || op.Mod? {
      DivisionDefinite(ir, t, u, id, vs);
    } else if op.And? || op.Or? || op.Not? || op.Implies? || op.Xor? {
      BooleanDefinite(ir, t, u, id, vs);
    } else if op.Eq? || op.Distinct? {
      ComparisonDefinite(ir, t, u, id, vs);
    } else if op.Select? || op.Store? || op.ConstArray? {
      ArrayDefinite(ir, t, u, id, vs);
    } else if op.UFApply? {
      ApplicationDefinite(ir, t, u, id, vs);
    } else if op.Variable? {
      LookupExact(t, op.name, ir[id].sort);
    } else if op.Ite? {
      assert ChildSorts(ir, id)[0] == BoolSort;
      BoolKnown(t, u, vs[0]);
    }
  }

  /** A term covered by the tables has a value. */
  lemma {:induction false} EvaluateDefinite(ir: Dag, t: Tables, u: Universe, id: nat)
    requires Ordered(ir) && WellSorted(ir) && TablesIn(ir, t, u) && id < |ir| && Covered(ir, t, id)
    ensures !Evaluate(ir, t, id).Unknown?
    decreases id
  {
    hide Step, HasSort, WellSortedAt, TablesInAt, CoveredAt;
    var c := ir[id].children;
    var vs := seq(|c|, k requires 0 <= k < |c| => Evaluate(ir, t, c[k]));
    forall k: nat | k < |c| ensures !vs[k].Unknown? && HasSort(t, u, ChildSorts(ir, id)[k], vs[k]) && Flat(ChildSorts(ir, id)[k]) {
      EvaluateDefinite(ir, t, u, c[k]);
      EvaluateSorted(ir, t, u, c[k]);
      CoveredFlat(ir, t, c[k]);
    }
    StepDefinite(ir, t, u, id, vs);
  }

  lemma {:induction false} CoveredFlat(ir: Dag, t: Tables, id: nat)
    requires Ordered(ir) && id < |ir| && Covered(ir, t, id)
    ensures Flat(ir[id].sort)
  {
  }

  /** The assertion's value is its truth in every extension. */
  lemma {:induction false} AssertionDecided(ir: Dag, t: Tables, i: Interpretation, a: nat)
    requires Ordered(ir) && WellSorted(ir) && (forall x: nat | x < |ir| :: FlatAt(ir, x)) && Extends(ir, t, i)
    requires a < |ir| && ir[a].sort.BoolSort? && Covered(ir, t, a)
    ensures exists truth :: Evaluate(ir, t, a) == Known(Truth(truth)) && Denotes(ir, i, a, truth)
  {
    hide Evaluate, Mean, WellSorted, Covered, Reliable, SameMeaning, DenoteContents;
    var u := i.world.universe;
    EvaluateDefinite(ir, t, u, a);
    EvaluateSorted(ir, t, u, a);
    BoolKnown(t, u, Evaluate(ir, t, a));
    FlatReliable(ir, t, i, a);
    EvaluateSound(ir, t, i, a);
  }

  /** Over arrays of scalars, the verdict on covered assertions is never open: it is Satisfied
      exactly when all of them hold in an extension of the tables, whichever that is. */
  lemma {:induction false} VerdictExact(ir: Dag, t: Tables, i: Interpretation, assertions: seq<nat>)
    requires Ordered(ir) && WellSorted(ir) && (forall x: nat | x < |ir| :: FlatAt(ir, x)) && Extends(ir, t, i)
    requires forall a | a in assertions :: a < |ir| && ir[a].sort.BoolSort? && Covered(ir, t, a)
    ensures VerdictOf(ir, t, assertions) == Satisfied <==> forall a | a in assertions :: Denotes(ir, i, a, true)
    ensures VerdictOf(ir, t, assertions) == Violated <==> exists a :: a in assertions && Denotes(ir, i, a, false)
    ensures VerdictOf(ir, t, assertions) != Indeterminate
  {
    hide Evaluate, Mean, WellSorted, Covered, Extends, FlatAt;
    forall a | a in assertions
      ensures Evaluate(ir, t, a) == Known(Truth(true)) <==> Denotes(ir, i, a, true)
      ensures Evaluate(ir, t, a) == Known(Truth(false)) <==> Denotes(ir, i, a, false)
      ensures Denotes(ir, i, a, true) || Denotes(ir, i, a, false)
    {
      AssertionDecided(ir, t, i, a);
      var truth: bool :| Evaluate(ir, t, a) == Known(Truth(truth)) && Denotes(ir, i, a, truth);
    }
  }
}
