/** Well-sorted terms and tables, and why evaluation stays within the sorts. */
module ArithModelSorts {
  import opened Basics
  import opened Terms
  import opened ArithModelTables
  import opened ArithModelSemantics
  import opened ArithModelValidator

  type Universe = (string, Scalar) -> bool

  /** No array is indexed by arrays. */
  predicate ScalarIndices(sort: Sort)
    decreases sort
  {
    sort.ArraySort? ==> !sort.index.ArraySort? && ScalarIndices(sort.element)
  }

  /** A scalar, or an array of scalars. */
  predicate Flat(sort: Sort) { sort.ArraySort? ==> !sort.element.ArraySort? }

  predicate Numeric(sort: Sort) { sort.IntSort? || sort.RealSort? }

  /** Arithmetic over one sort; integers may stand among reals. */
  predicate Arithmetic(sort: Sort, sorts: seq<Sort>) {
    Numeric(sort) && forall k: nat | k < |sorts| :: sorts[k] == sort || (sort.RealSort? && sorts[k].IntSort?)
  }

  predicate OneSort(sorts: seq<Sort>) {
    forall k: nat, l: nat | k < |sorts| && l < |sorts| :: sorts[k] == sorts[l]
  }

  /** The sorting rule of an operator. */
  predicate Rule(op: Op, sort: Sort, sorts: seq<Sort>) {
    match op
    case BoolConst(_) => sort.BoolSort?
    case NumConst(q) => sort.RealSort? || (sort.IntSort? && Integral(q))
    case Variable(_) => true
    case UFApply(_) => true
    case Add => Arithmetic(sort, sorts)
    case Sub => Arithmetic(sort, sorts)
    case Neg => Arithmetic(sort, sorts)
    case Mul => Arithmetic(sort, sorts)
    case Div => Arithmetic(sort, sorts)
    case Abs => Arithmetic(sort, sorts)
    case Mod => sort.IntSort?
    case ToReal => sort.RealSort? && forall k: nat | k < |sorts| :: Numeric(sorts[k])
    case ToInt => sort.IntSort?
    case IsInt => sort.BoolSort?
    case Eq => sort.BoolSort? && OneSort(sorts)
    case Distinct => sort.BoolSort? && OneSort(sorts)
    case Not => sort.BoolSort?
    case And => sort.BoolSort?
    case Or => sort.BoolSort?
    case Implies => sort.BoolSort?
    case Xor => sort.BoolSort?
    case Lt => sort.BoolSort?
    case Leq => sort.BoolSort?
    case Gt => sort.BoolSort?
    case Geq => sort.BoolSort?
    case Ite => |sorts| == 3 ==> sorts[1] == sort && sorts[2] == sort
    case ConstArray => |sorts| == 1 ==> sort.ArraySort? && sorts[0] == sort.element
    case Store => |sorts| == 3 ==> sort.ArraySort? && sorts == [sort, sort.index, sort.element]
    case Select => |sorts| == 2 ==> sorts[0].ArraySort? && sorts[0].element == sort && sorts[1] == sorts[0].index
    case Unsupported => true
  }

  predicate WellSortedAt(ir: Dag, id: nat)
    requires Ordered(ir) && id < |ir|
  {
    ScalarIndices(ir[id].sort) && Rule(ir[id].op, ir[id].sort, ChildSorts(ir, id))
  }

  predicate WellSorted(ir: Dag)
    requires Ordered(ir)
  {
    forall id: nat | id < |ir| :: WellSortedAt(ir, id)
  }

  /** A token of the sort: a scalar of its domain, or a handle whose array, if there is one, is of the sort. */
  ghost predicate Belongs(t: Tables, u: Universe, sort: Sort, token: Scalar)
    decreases sort, 1
  {
    if !sort.ArraySort? then InDomain(u, sort, token)
    else
      && token.Opaque?
      && (Resolves(t, token) ==>
            var r := t.handles.value[token.name];
            r.indexSort == Spell(sort.index) && r.elemSort == Spell(sort.element) && RecordIn(t, u, sort, r))
  }

  /** A stored array of the sort: indices in their domain, elements of the element sort. */
  ghost predicate RecordIn(t: Tables, u: Universe, sort: Sort, r: Record)
    requires sort.ArraySort?
    decreases sort, 0
  {
    && Belongs(t, u, sort.element, r.default)
    && forall e | e in r.entries :: InDomain(u, sort.index, e.index) && Belongs(t, u, sort.element, e.value)
  }

  /** Array contents of an array sort: keys in the index domain, elements of the element sort. */
  ghost predicate ContentsIn(t: Tables, u: Universe, sort: Sort, a: ArrayVal) {
    && sort.ArraySort? && Belongs(t, u, sort.element, a.default)
    && forall key | key in a.overrides :: InDomain(u, sort.index, key) && Belongs(t, u, sort.element, a.overrides[key])
  }

  ghost predicate HasSort(t: Tables, u: Universe, sort: Sort, v: Value) {
    match v
    case Unknown => true
    case Known(s) => InDomain(u, sort, s)
    case Array(a) => ContentsIn(t, u, sort, a)
  }

  ghost predicate SaidIn(t: Tables, u: Universe, sort: Sort, said: Said) {
    match said
    case AnArray(r) => sort.ArraySort? && RecordIn(t, u, sort, r)
    case AScalar(s) => InDomain(u, sort, s)
  }

  /** A result of a function's table: a handle, or an element of an uninterpreted sort that is no numeral. */
  ghost predicate CellIn(t: Tables, u: Universe, sort: Sort, cell: Cell) {
    cell.text != "" ==>
      && (sort.ArraySort? ==> Belongs(t, u, sort, Opaque(cell.text)))
      && (sort.NamedSort? ==> !cell.numeral.Numeral? && u(sort.name, Opaque(cell.text)))
  }

  predicate Interpreted(sort: Sort) { sort.NamedSort? ==> sort.name !in {"Bool", "Int", "Real"} }

  /** A function's table fits a use of the function: results of the sort, and array keys of the argument sorts. */
  ghost predicate FunctionIn(t: Tables, u: Universe, f: FunctionTable, sorts: seq<Sort>, sort: Sort) {
    && f.retSort == Spell(sort) && Interpreted(sort)
    && CellIn(t, u, sort, f.default) && (forall r | r in f.rows :: CellIn(t, u, sort, r.value))
    && forall r, k: nat | r in f.rows && k < |sorts| && k < |r.args| && sorts[k].ArraySort? ::
         Belongs(t, u, sorts[k], Opaque(r.args[k].text))
  }

  /** The given tables are of the sorts their symbols have in the terms. */
  ghost predicate TablesIn(ir: Dag, t: Tables, u: Universe)
    requires Ordered(ir)
  {
    forall id: nat | id < |ir| :: TablesInAt(ir, t, u, id)
  }

  ghost predicate TablesInAt(ir: Dag, t: Tables, u: Universe, id: nat)
    requires Ordered(ir) && id < |ir|
  {
    match ir[id].op
    case Variable(name) => forall said | Says(t, name, ir[id].sort, said) :: SaidIn(t, u, ir[id].sort, said)
    case UFApply(symbol) => symbol in t.functions ==> FunctionIn(t, u, t.functions[symbol], ChildSorts(ir, id), ir[id].sort)
    case _ => true
  }

  /** An override comes from an entry. */
  lemma {:induction false} OverrideStored(r: Record, s: Scalar)
    ensures At(Contents(r), s) == Stored(r, s)
    ensures s in Overrides(r.entries) ==> exists e :: e in r.entries && e.index == s && e.value == Overrides(r.entries)[s]
  {
    LastOverride(r.entries, s, r.default);
  }

  lemma {:induction false} LastOverride(entries: seq<Pair>, s: Scalar, otherwise: Scalar)
    ensures LastEntry(entries, s, otherwise) == if s in Overrides(entries) then Overrides(entries)[s] else otherwise
    ensures s in Overrides(entries) ==> exists e :: e in entries && e.index == s && e.value == Overrides(entries)[s]
  {
    if entries != [] {
      var n := |entries| - 1;
      LastOverride(entries[..n], s, otherwise);
      assert entries[n] in entries;
      if s in Overrides(entries[..n]) {
        var e :| e in entries[..n] && e.index == s && e.value == Overrides(entries[..n])[s];
        assert e in entries;
      }
    }
  }

  /** Evaluation reads a stored array of the sort as contents of the sort. */
  lemma {:induction false} RecordContents(t: Tables, u: Universe, sort: Sort, r: Record)
    requires sort.ArraySort? && RecordIn(t, u, sort, r)
    ensures ContentsIn(t, u, sort, Contents(r))
  {
    hide InDomain, Belongs;
    forall key | key in Contents(r).overrides
      ensures InDomain(u, sort.index, key) && Belongs(t, u, sort.element, Contents(r).overrides[key])
    {
      OverrideStored(r, key);
    }
  }

  lemma {:induction false} HandleSorted(t: Tables, u: Universe, sort: Sort, token: Scalar)
    requires sort.ArraySort? && Belongs(t, u, sort, token) && RecordOf(t, token).Some?
    ensures RecordIn(t, u, sort, RecordOf(t, token).value) && ContentsIn(t, u, sort, Contents(RecordOf(t, token).value))
    ensures ArrayName(RecordOf(t, token).value) == Spell(sort)
  {
    hide RecordIn, Contents, ContentsIn;
    RecordContents(t, u, sort, RecordOf(t, token).value);
  }

  /** The lookup finds what the tables say, in the same precedence. */
  lemma {:induction false} LookupExact(t: Tables, name: string, sort: Sort)
    ensures Lookup(t, name, sort).Unknown? <==> forall said :: !Says(t, name, sort, said)
    ensures forall s :: Lookup(t, name, sort) == Known(s) <==> Says(t, name, sort, AScalar(s))
    ensures forall r | Says(t, name, sort, AnArray(r)) :: Lookup(t, name, sort) == Array(Contents(r))
    ensures Lookup(t, name, sort).Array? ==> exists r :: Says(t, name, sort, AnArray(r))
  {
    hide Contents;
    var v := Lookup(t, name, sort);
    if v.Known? {
      assert Says(t, name, sort, AScalar(v.scalar));
    } else if v.Array? {
      assert Says(t, name, sort, AnArray(t.arrays.value[name]));
    }
  }

  lemma {:induction false} LookupSorted(t: Tables, u: Universe, name: string, sort: Sort)
    requires forall said | Says(t, name, sort, said) :: SaidIn(t, u, sort, said)
    ensures HasSort(t, u, sort, Lookup(t, name, sort))
  {
    hide Says, Lookup, InDomain, RecordIn, ContentsIn, Contents;
    LookupExact(t, name, sort);
    var v := Lookup(t, name, sort);
    if v.Known? {
      assert Says(t, name, sort, AScalar(v.scalar));
    } else if v.Array? {
      var r :| Says(t, name, sort, AnArray(r));
      assert SaidIn(t, u, sort, AnArray(r));
      RecordContents(t, u, sort, r);
    }
  }

  lemma {:induction false} ResultSorted(t: Tables, u: Universe, f: FunctionTable, sort: Sort, cell: Cell)
    requires f.retSort == Spell(sort) && Interpreted(sort) && CellIn(t, u, sort, cell)
    ensures HasSort(t, u, sort, ResultOf(t, f, sort, cell))
  {
    hide Contents, ContentsIn, Belongs;
    if cell.text != "" && sort.ArraySort? && RecordOf(t, Opaque(cell.text)).Some? {
      HandleSorted(t, u, sort, Opaque(cell.text));
    }
  }

  ghost predicate AllHaveSort(t: Tables, u: Universe, sorts: seq<Sort>, vs: seq<Value>) {
    |sorts| == |vs| && forall k: nat | k < |vs| :: HasSort(t, u, sorts[k], vs[k])
  }

  predicate AllIntegral(xs: seq<Option<real>>) {
    forall k: nat | k < |xs| && xs[k].Some? :: Integral(xs[k].value)
  }

  lemma {:induction false} WholeIntegral(x: real, k: int)
    requires x == k as real
    ensures Integral(x)
  {
  }

  lemma {:induction false} IntegralClosed(a: real, b: real)
    requires Integral(a) && Integral(b)
    ensures Integral(a + b) && Integral(a - b) && Integral(-a)
  {
    var j, k := a.Floor, b.Floor;
    WholeIntegral(a + b, j + k);
    WholeIntegral(a - b, j - k);
    WholeIntegral(-a, -j);
  }

  lemma {:induction false} TotalIntegral(xs: seq<Option<real>>)
    requires AllIntegral(xs)
    ensures Total(xs).Some? ==> Integral(Total(xs).value)
  {
    if xs != [] && Total(xs).Some? {
      var n := |xs| - 1;
      TotalIntegral(xs[..n]);
      IntegralClosed(Total(xs[..n]).value, xs[n].value);
    }
  }

  lemma {:induction false} TimesIntegral(p: Option<real>, q: Option<real>)
    requires p.Some? && q.Some? && Integral(p.value) && Integral(q.value)
    ensures Integral(Times(p, q).value)
  {
    hide Integral;
    var r := Times(p, q).value;
    assert r == p.value * q.value;
    IntegralProduct(p.value, q.value, r);
  }

  lemma {:induction false} IntegralProduct(a: real, b: real, c: real)
    requires Integral(a) && Integral(b) && c == a * b
    ensures Integral(c)
  {
    var j, k := a.Floor, b.Floor;
    assert (j * k) as real == a * b;
    WholeIntegral(c, j * k);
  }

  lemma {:induction false} ProductIntegral(xs: seq<Option<real>>)
    requires AllIntegral(xs)
    ensures Product(xs).Some? ==> Integral(Product(xs).value)
  {
    if xs != [] && Product(xs).Some? {
      var n := |xs| - 1;
      ProductIntegral(xs[..n]);
      var p, q := Product(xs[..n]), xs[n];
      assert p.Some? && Integral(p.value) && Product(xs) == Times(p, q);
      TimesIntegral(p, q);
    }
  }

  lemma {:induction false} IntegerReadings(t: Tables, u: Universe, sorts: seq<Sort>, vs: seq<Value>)
    requires AllHaveSort(t, u, sorts, vs) && forall k: nat | k < |sorts| :: sorts[k].IntSort?
    ensures AllIntegral(NumbersOf(vs))
  {
    forall k: nat | k < |vs| && NumberOf(vs[k]).Some? ensures Integral(NumberOf(vs[k]).value) {
      assert HasSort(t, u, sorts[k], vs[k]);
    }
  }

  /** Arithmetic on integers gives integers. */
  lemma {:induction false} ArithmeticSorted(ir: Dag, t: Tables, u: Universe, id: nat, vs: seq<Value>)
    requires Ordered(ir) && id < |ir| && WellSortedAt(ir, id) && AllHaveSort(t, u, ChildSorts(ir, id), vs)
    requires var op := ir[id].op; op.Add? || op.Sub? || op.Mul? || op.Neg? || op.Abs?
    ensures HasSort(t, u, ir[id].sort, Step(ir, t, id, vs))
  {
    hide Total, Product, ChildSorts, Integral;
    if ir[id].sort.IntSort? {
      IntegerReadings(t, u, ChildSorts(ir, id), vs);
      var xs := NumbersOf(vs);
      match ir[id].op
      case Add => TotalIntegral(xs);
      case Mul => ProductIntegral(xs);
      case Sub =>
        if vs != [] {
          assert NumbersOf(vs[1..]) == xs[1..];
          TotalIntegral(xs[1..]);
          if xs[0].Some? && Total(xs[1..]).Some? {
            IntegralClosed(xs[0].value, Total(xs[1..]).value);
          }
        }
      case Neg =>
        if |vs| == 1 && xs[0].Some? {
          IntegralClosed(xs[0].value, xs[0].value);
        }
      case Abs =>
        if |vs| == 1 && xs[0].Some? {
          IntegralClosed(xs[0].value, xs[0].value);
        }
    }
  }

  lemma {:induction false} QuotientSorted(ir: Dag, t: Tables, u: Universe, id: nat, vs: seq<Value>)
    requires Ordered(ir) && id < |ir| && WellSortedAt(ir, id) && |vs| == |ir[id].children|
    requires ir[id].op.Div? || ir[id].op.Mod? || ir[id].op.ToInt?
    ensures HasSort(t, u, ir[id].sort, Step(ir, t, id, vs))
  {
    hide ChildSorts, QuotientOf, RemainderOf;
  }

  /** Reading and writing arrays keeps keys in their domain and elements in their sort. */
  lemma {:induction false} ArraySorted(ir: Dag, t: Tables, u: Universe, id: nat, vs: seq<Value>)
    requires Ordered(ir) && id < |ir| && WellSortedAt(ir, id) && AllHaveSort(t, u, ChildSorts(ir, id), vs)
    requires ir[id].op.Select? || ir[id].op.Store? || ir[id].op.ConstArray?
    ensures HasSort(t, u, ir[id].sort, Step(ir, t, id, vs))
  {
    hide InDomain, Integral;
    var sorts := ChildSorts(ir, id);
    forall k: nat | k < |vs| ensures HasSort(t, u, sorts[k], vs[k]) {
    }
    match ir[id].op
    case Select =>
      if |vs| == 2 && vs[0].Array? && AsToken(t, vs[1]).Some? {
        ElementSorted(t, u, sorts[0], vs[0].contents, AsToken(t, vs[1]).value);
      }
    case Store =>
      if |vs| == 3 && vs[0].Array? && AsToken(t, vs[1]).Some? && AsToken(t, vs[2]).Some? {
        ScalarBelongs(t, u, sorts[2], vs[2]);
      }
    case ConstArray =>
      if |vs| == 1 && AsToken(t, vs[0]).Some? {
        ScalarBelongs(t, u, sorts[0], vs[0]);
      }
  }

  lemma {:induction false} ScalarBelongs(t: Tables, u: Universe, sort: Sort, v: Value)
    requires v.Known? && HasSort(t, u, sort, v)
    ensures Belongs(t, u, sort, v.scalar)
  {
  }

  lemma {:induction false} ElementSorted(t: Tables, u: Universe, sort: Sort, a: ArrayVal, key: Scalar)
    requires ContentsIn(t, u, sort, a)
    ensures Belongs(t, u, sort.element, At(a, key)) && HasSort(t, u, sort.element, Element(t, sort.element, At(a, key)))
  {
    hide InDomain, Contents;
    var token := At(a, key);
    assert Belongs(t, u, sort.element, token);
    if sort.element.ArraySort? && RecordOf(t, token).Some? {
      hide Belongs;
      HandleSorted(t, u, sort.element, token);
    }
  }

  lemma {:induction false} ScanFromRows(t: Tables, f: FunctionTable, sorts: seq<Sort>, vs: seq<Value>, n: nat)
    requires n <= |f.rows| && |sorts| == |vs| == |f.argSorts| && Scan(t, f, sorts, vs, n).Some?
    ensures Scan(t, f, sorts, vs, n).value.Some? ==> exists r :: r in f.rows && r.value == Scan(t, f, sorts, vs, n).value.value
  {
    hide RowFit;
    if n > 0 {
      ScanFromRows(t, f, sorts, vs, n - 1);
      assert f.rows[n - 1] in f.rows;
    }
  }

  lemma {:induction false} ApplySorted(t: Tables, u: Universe, f: FunctionTable, sorts: seq<Sort>, sort: Sort, vs: seq<Value>)
    requires FunctionIn(t, u, f, sorts, sort) && |sorts| == |vs|
    ensures HasSort(t, u, sort, ApplyTable(t, f, sorts, sort, vs))
  {
    hide HasSort, ResultOf, Scan, CellIn, Spell, Belongs;
    if |f.argSorts| == |vs| && Scan(t, f, sorts, vs, |f.rows|).Some? {
      ScanFromRows(t, f, sorts, vs, |f.rows|);
      var found := Scan(t, f, sorts, vs, |f.rows|).value;
      ResultSorted(t, u, f, sort, if found.Some? then found.value else f.default);
    } else {
      UnknownHasSort(t, u, sort);
    }
  }

  lemma {:induction false} UnknownHasSort(t: Tables, u: Universe, sort: Sort)
    ensures HasSort(t, u, sort, Unknown)
  {
  }

  lemma {:induction false} StepSorted(ir: Dag, t: Tables, u: Universe, id: nat, vs: seq<Value>)
    requires Ordered(ir) && id < |ir| && WellSortedAt(ir, id) && TablesInAt(ir, t, u, id)
    requires AllHaveSort(t, u, ChildSorts(ir, id), vs)
    ensures HasSort(t, u, ir[id].sort, Step(ir, t, id, vs))
  {
    hide Total, Product, Parity, Junction, DivValue, ModValue, Compare, ApplyTable, Lookup, FunctionIn;
    var op := ir[id].op;
    if op.Add? || op.Sub? || op.Mul? || op.Neg? || op.Abs? {
      ArithmeticSorted(ir, t, u, id, vs);
    } else if op.Div? || op.Mod? || op.ToInt? {
      QuotientSorted(ir, t, u, id, vs);
    } else if op.Select? || op.Store? || op.ConstArray? {
      ArraySorted(ir, t, u, id, vs);
    } else if op.UFApply? {
      if op.symbol in t.functions {
        ApplySorted(t, u, t.functions[op.symbol], ChildSorts(ir, id), ir[id].sort, vs);
      }
    } else if op.Variable? {
      LookupSorted(t, u, op.name, ir[id].sort);
    } else if op.Ite? || op.ToReal? {
      assert forall k: nat | k < |vs| :: HasSort(t, u, ChildSorts(ir, id)[k], vs[k]);
    } else if op.And? || op.Or? {
      JunctionBoolean(vs, op.And?, false);
    }
  }

  lemma {:induction false} JunctionBoolean(vs: seq<Value>, identity: bool, unknown: bool)
    ensures var v := Junction(vs, identity, unknown); v.Unknown? || (v.Known? && v.scalar.Truth?)
  {
    if vs != [] {
      JunctionBoolean(vs[1..], identity, unknown || vs[0].Unknown?);
    }
  }

  /** Evaluation preserves sorts, so that every override key lies in its index domain. */
  lemma {:induction false} EvaluateSorted(ir: Dag, t: Tables, u: Universe, id: nat)
    requires Ordered(ir) && WellSorted(ir) && TablesIn(ir, t, u) && id < |ir|
    ensures HasSort(t, u, ir[id].sort, Evaluate(ir, t, id))
    decreases id
  {
    hide Step, HasSort, Rule, TablesInAt;
    var c := ir[id].children;
    var vs := seq(|c|, k requires 0 <= k < |c| => Evaluate(ir, t, c[k]));
    forall k: nat | k < |c| ensures HasSort(t, u, ChildSorts(ir, id)[k], vs[k]) {
      EvaluateSorted(ir, t, u, c[k]);
    }
    StepSorted(ir, t, u, id, vs);
  }
}
