/** The total interpretations that extend the tables of a model. */
module ArithModelExtensions {
  import opened Basics
  import opened Terms
  import opened ArithModelTables
  import opened ArithModelSemantics
  import opened ArithModelValidator
  import opened ArithModelSorts
  import opened ArithModelArrays

  /** The value tells the meaning, unless it is unknown. */
  ghost predicate Matches(t: Tables, w: World, sort: Sort, v: Value, m: Meaning) {
    match v
    case Unknown => true
    case Known(s) => m == Plain(s)
    case Array(a) => sort.ArraySort? && SameMeaning(w, sort, m, DenoteContents(t, w, sort, a))
  }

  ghost predicate AllMatch(t: Tables, w: World, sorts: seq<Sort>, vs: seq<Value>, ms: seq<Meaning>) {
    |sorts| == |vs| == |ms| && forall k: nat | k < |vs| :: Matches(t, w, sorts[k], vs[k], ms[k])
  }

  /** The argument is the key's element, or the array behind the key. */
  ghost predicate KeyMatches(t: Tables, w: World, sort: Sort, m: Meaning, key: Cell) {
    if sort.ArraySort? then SameMeaning(w, sort, m, DenoteToken(t, w, sort, Opaque(key.text)))
    else
      match m
      case Plain(Num(x)) => key.numeral == Numeral(x)
      case Plain(Truth(b)) => key.truth == Some(b)
      case Plain(Opaque(s)) => key.text == s
      case Mapping(_) => false
  }

  ghost predicate RowMatches(t: Tables, w: World, sorts: seq<Sort>, ms: seq<Meaning>, row: Row) {
    |row.args| == |ms| == |sorts| && forall k: nat | k < |ms| :: KeyMatches(t, w, sorts[k], ms[k], row.args[k])
  }

  /** The function's table gives this cell: by rows that match and agree, or by the default. */
  ghost predicate Gives(t: Tables, w: World, f: FunctionTable, sorts: seq<Sort>, ms: seq<Meaning>, cell: Cell) {
    if forall r | r in f.rows :: !RowMatches(t, w, sorts, ms, r) then cell == f.default
    else
      && (exists r :: r in f.rows && r.value == cell && RowMatches(t, w, sorts, ms, r))
      && (forall q | q in f.rows && RowMatches(t, w, sorts, ms, q) :: q.value.text == cell.text)
  }

  /** What a variable means if the tables say something of it. */
  ghost predicate SaidMeans(t: Tables, w: World, sort: Sort, said: Said, m: Meaning) {
    match said
    case AnArray(r) => sort.ArraySort? && SameMeaning(w, sort, m, DenoteRecord(t, w, sort, r))
    case AScalar(s) => m == Plain(s)
  }

  /** What a result means if the cell is legible for its sort. */
  ghost predicate CellMeans(t: Tables, w: World, sort: Sort, cell: Cell, m: Meaning) {
    cell.text == "" ||
    match sort
    case BoolSort => cell.truth.Some? ==> m == Plain(Truth(cell.truth.value))
    case IntSort => cell.numeral.Numeral? && Integral(cell.numeral.q) ==> m == Plain(Num(cell.numeral.q))
    case RealSort => cell.numeral.Numeral? ==> m == Plain(Num(cell.numeral.q))
    case NamedSort(_) => cell.numeral.NotNumeral? ==> m == Plain(Opaque(cell.text))
    case ArraySort(_, _) =>
      Resolves(t, Opaque(cell.text)) ==> SameMeaning(w, sort, m, DenoteRecord(t, w, sort, t.handles.value[cell.text]))
  }

  ghost predicate ExtendsFunction(t: Tables, i: Interpretation, symbol: string, f: FunctionTable, sorts: seq<Sort>, sort: Sort) {
    forall ms: seq<Meaning>, cell: Cell | |ms| == |sorts| == |f.argSorts| && Gives(t, i.world, f, sorts, ms, cell) ::
      CellMeans(t, i.world, sort, cell, i.apply(symbol, ms))
  }

  /** At a zero divisor: the table's value, or zero where it has none. */
  ghost predicate ExtendsZero(table: Option<map<int, real>>, value: int -> real) {
    table.Some? ==> forall a: int :: if a in table.value then Integral(table.value[a]) ==> value(a) == table.value[a] else value(a) == 0.0
  }

  /** The interpretation agrees with what the tables say of a node's symbol. */
  ghost predicate ExtendsAt(ir: Dag, t: Tables, i: Interpretation, id: nat)
    requires Ordered(ir) && id < |ir|
  {
    match ir[id].op
    case Variable(name) =>
      forall said | Says(t, name, ir[id].sort, said) :: SaidMeans(t, i.world, ir[id].sort, said, i.variable(name, ir[id].sort))
    case UFApply(symbol) => symbol in t.functions ==> ExtendsFunction(t, i, symbol, t.functions[symbol], ChildSorts(ir, id), ir[id].sort)
    case _ => true
  }

  ghost predicate Extends(ir: Dag, t: Tables, i: Interpretation)
    requires Ordered(ir)
  {
    && TablesIn(ir, t, i.world.universe)
    && (forall id: nat | id < |ir| :: ExtendsAt(ir, t, i, id))
    && ExtendsZero(t.divZero, i.divZero) && ExtendsZero(t.modZero, i.modZero)
  }

  lemma {:induction false} UnknownMatches(t: Tables, w: World, sort: Sort, m: Meaning)
    ensures Matches(t, w, sort, Unknown, m)
  {
  }

  /** The value looked up for a variable is what the tables make it mean. */
  lemma {:induction false} LookupMatches(t: Tables, w: World, name: string, sort: Sort, m: Meaning)
    requires forall said | Says(t, name, sort, said) :: SaidMeans(t, w, sort, said, m)
    ensures Matches(t, w, sort, Lookup(t, name, sort), m)
  {
    hide Says, Lookup, SameMeaning, DenoteRecord, DenoteContents, Contents;
    LookupExact(t, name, sort);
    var v := Lookup(t, name, sort);
    if v.Known? {
      assert Says(t, name, sort, AScalar(v.scalar));
    } else if v.Array? {
      var r :| Says(t, name, sort, AnArray(r));
      assert SaidMeans(t, w, sort, AnArray(r), m);
      RecordMeans(t, w, sort, r);
      SameTransitive(w, sort, m, DenoteRecord(t, w, sort, r), DenoteContents(t, w, sort, Contents(r)));
    }
  }

  /** The value read from a function's table is what the cell makes the result mean. */
  lemma {:induction false} ResultMatches(t: Tables, w: World, f: FunctionTable, sort: Sort, cell: Cell, m: Meaning)
    requires f.retSort == Spell(sort) && Interpreted(sort) && CellIn(t, w.universe, sort, cell) && CellMeans(t, w, sort, cell, m)
    ensures Matches(t, w, sort, ResultOf(t, f, sort, cell), m)
  {
    hide SameMeaning, DenoteRecord, DenoteContents, Contents, Belongs;
    if cell.text != "" && sort.ArraySort? && RecordOf(t, Opaque(cell.text)).Some? {
      var r := RecordOf(t, Opaque(cell.text)).value;
      RecordMeans(t, w, sort, r);
      SameTransitive(w, sort, m, DenoteRecord(t, w, sort, r), DenoteContents(t, w, sort, Contents(r)));
    }
  }

  lemma {:induction false} ZeroMatches(table: Option<map<int, real>>, value: int -> real, a: int)
    requires ExtendsZero(table, value)
    ensures ZeroExtension(table, a) == Unknown || ZeroExtension(table, a) == Known(Num(value(a)))
  {
  }

  /** Cells with one text have one reading. */
  ghost predicate Coherent(f: FunctionTable) {
    forall r, q | r in f.rows && q in f.rows && r.value.text == q.value.text :: r.value == q.value
  }

  lemma {:induction false} GivesUnique(t: Tables, w: World, f: FunctionTable, sorts: seq<Sort>, ms: seq<Meaning>, c: Cell, d: Cell)
    requires Coherent(f) && Gives(t, w, f, sorts, ms, c) && Gives(t, w, f, sorts, ms, d)
    ensures c == d
  {
    hide RowMatches;
  }

  /** Every use of a function has the same sorts. */
  ghost predicate OneSignature(ir: Dag)
    requires Ordered(ir)
  {
    forall x: nat, y: nat | x < |ir| && y < |ir| && ir[x].op.UFApply? && ir[x].op == ir[y].op ::
      ir[x].sort == ir[y].sort && ChildSorts(ir, x) == ChildSorts(ir, y)
  }

  function MeaningOf(t: Tables, w: World, sort: Sort, v: Value): Meaning {
    match v
    case Unknown => Plain(Truth(false))
    case Known(s) => Plain(s)
    case Array(a) => if sort.ArraySort? then DenoteContents(t, w, sort, a) else Plain(Truth(false))
  }

  /** A use of the function whose table gives the cell. */
  ghost predicate Tells(ir: Dag, t: Tables, w: World, symbol: string, ms: seq<Meaning>, id: nat, cell: Cell)
    requires Ordered(ir)
  {
    && id < |ir| && ir[id].op == UFApply(symbol) && symbol in t.functions
    && |ms| == |ChildSorts(ir, id)| == |t.functions[symbol].argSorts|
    && Gives(t, w, t.functions[symbol], ChildSorts(ir, id), ms, cell)
  }

  ghost function Tabulated(ir: Dag, t: Tables, w: World, symbol: string, ms: seq<Meaning>): Meaning
    requires Ordered(ir)
  {
    if exists id: nat, cell: Cell :: Tells(ir, t, w, symbol, ms, id, cell) then
      var id: nat, cell: Cell :| Tells(ir, t, w, symbol, ms, id, cell);
      MeaningOf(t, w, ir[id].sort, ResultOf(t, t.functions[symbol], ir[id].sort, cell))
    else Plain(Truth(false))
  }

  function ZeroValue(table: Option<map<int, real>>): int -> real {
    a => if table.Some? && a in table.value then table.value[a] else 0.0
  }

  /** One way to complete the tables over given uninterpreted elements. */
  ghost function Completion(ir: Dag, t: Tables, w: World): Interpretation
    requires Ordered(ir)
  {
    Interpretation(
      w,
      (name: string, sort: Sort) => MeaningOf(t, w, sort, Lookup(t, name, sort)),
      (symbol: string, ms: seq<Meaning>) => Tabulated(ir, t, w, symbol, ms),
      ZeroValue(t.divZero), ZeroValue(t.modZero), (_: nat) => Plain(Truth(false)))
  }

  lemma {:induction false} ContentsMean(t: Tables, w: World, sort: Sort, r: Record)
    requires sort.ArraySort?
    ensures SameMeaning(w, sort, MeaningOf(t, w, sort, Array(Contents(r))), DenoteRecord(t, w, sort, r))
  {
    hide SameMeaning, DenoteRecord, DenoteContents;
    RecordMeans(t, w, sort, r);
    SameSymmetric(w, sort, DenoteRecord(t, w, sort, r), DenoteContents(t, w, sort, Contents(r)));
  }

  lemma {:induction false} LookupMeans(t: Tables, w: World, name: string, sort: Sort, said: Said)
    requires Says(t, name, sort, said) && SaidIn(t, w.universe, sort, said)
    ensures SaidMeans(t, w, sort, said, MeaningOf(t, w, sort, Lookup(t, name, sort)))
  {
    hide Says, Lookup, SameMeaning, DenoteRecord, DenoteContents, RecordIn, Contents;
    LookupExact(t, name, sort);
    if said.AnArray? {
      ContentsMean(t, w, sort, said.record);
    }
  }

  lemma {:induction false} ResultMeans(t: Tables, w: World, f: FunctionTable, sort: Sort, cell: Cell)
    requires f.retSort == Spell(sort) && Interpreted(sort) && CellIn(t, w.universe, sort, cell)
    ensures CellMeans(t, w, sort, cell, MeaningOf(t, w, sort, ResultOf(t, f, sort, cell)))
  {
    hide SameMeaning, DenoteRecord, DenoteContents, Contents, RecordIn;
    if cell.text != "" && sort.ArraySort? && Resolves(t, Opaque(cell.text)) {
      ContentsMean(t, w, sort, t.handles.value[cell.text]);
    }
  }

  lemma {:induction false} TabulatedFrom(ir: Dag, t: Tables, w: World, symbol: string, ms: seq<Meaning>) returns (id: nat, cell: Cell)
    requires Ordered(ir) && exists x: nat, c: Cell :: Tells(ir, t, w, symbol, ms, x, c)
    ensures Tells(ir, t, w, symbol, ms, id, cell)
    ensures Tabulated(ir, t, w, symbol, ms) == MeaningOf(t, w, ir[id].sort, ResultOf(t, t.functions[symbol], ir[id].sort, cell))
  {
    hide Gives, ResultOf, MeaningOf, ChildSorts;
    id, cell :| Tells(ir, t, w, symbol, ms, id, cell) &&
      Tabulated(ir, t, w, symbol, ms) == MeaningOf(t, w, ir[id].sort, ResultOf(t, t.functions[symbol], ir[id].sort, cell));
  }

  lemma {:induction false} CompletionApplies(ir: Dag, t: Tables, w: World, id: nat, ms: seq<Meaning>, cell: Cell)
    requires Ordered(ir) && OneSignature(ir) && TablesIn(ir, t, w.universe) && id < |ir| && ir[id].op.UFApply?
    requires Tells(ir, t, w, ir[id].op.symbol, ms, id, cell) && Coherent(t.functions[ir[id].op.symbol])
    ensures CellMeans(t, w, ir[id].sort, cell, Tabulated(ir, t, w, ir[id].op.symbol, ms))
  {
    hide Gives, ResultOf, CellMeans, CellIn, Spell, MeaningOf, ChildSorts, Tabulated;
    var symbol, sort := ir[id].op.symbol, ir[id].sort;
    var f := t.functions[symbol];
    var x, chosen := TabulatedFrom(ir, t, w, symbol, ms);
    assert ir[x].op == ir[id].op;
    GivesUnique(t, w, f, ChildSorts(ir, id), ms, cell, chosen);
    assert TablesInAt(ir, t, w.universe, id);
    CellSorted(t, w, f, ChildSorts(ir, id), sort, ms, cell);
    ResultMeans(t, w, f, sort, cell);
  }

  lemma {:induction false} CellSorted(t: Tables, w: World, f: FunctionTable, sorts: seq<Sort>, sort: Sort, ms: seq<Meaning>, cell: Cell)
    requires FunctionIn(t, w.universe, f, sorts, sort) && Gives(t, w, f, sorts, ms, cell)
    ensures CellIn(t, w.universe, sort, cell)
  {
    hide RowMatches, CellIn, Spell;
  }

  /** Coherent tables of the right sorts have an extension. */
  lemma {:induction false} ExtensionExists(ir: Dag, t: Tables, w: World)
    requires Ordered(ir) && OneSignature(ir) && TablesIn(ir, t, w.universe)
    requires forall symbol | symbol in t.functions :: Coherent(t.functions[symbol])
    ensures Extends(ir, t, Completion(ir, t, w))
  {
    hide Gives, CellMeans, SaidMeans, SaidIn, Says, MeaningOf, Lookup, Coherent, Tabulated, ChildSorts;
    var i := Completion(ir, t, w);
    forall id: nat | id < |ir| ensures ExtendsAt(ir, t, i, id) {
      var n := ir[id];
      assert TablesInAt(ir, t, w.universe, id);
      if n.op.Variable? {
        forall said | Says(t, n.op.name, n.sort, said) ensures SaidMeans(t, w, n.sort, said, i.variable(n.op.name, n.sort)) {
          LookupMeans(t, w, n.op.name, n.sort, said);
        }
      } else if n.op.UFApply? && n.op.symbol in t.functions {
        var f, sorts := t.functions[n.op.symbol], ChildSorts(ir, id);
        forall ms: seq<Meaning>, cell: Cell | |ms| == |sorts| == |f.argSorts| && Gives(t, w, f, sorts, ms, cell)
          ensures CellMeans(t, w, n.sort, cell, i.apply(n.op.symbol, ms))
        {
          CompletionApplies(ir, t, w, id, ms, cell);
        }
      }
    }
  }
}
