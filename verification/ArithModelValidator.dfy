/** The validator's evaluation of terms under given tables, and its verdicts. */
module ArithModelValidator {
  import opened Basics
  import opened Terms
  import opened ArithModelTables
  import opened ArithModelSemantics
  import opened PostOrder

  /** Later entries override earlier ones. */
  function Overrides(entries: seq<Pair>): map<Scalar, Scalar> {
    if entries == [] then map[] else
    var last := entries[|entries| - 1];
    Overrides(entries[..|entries| - 1])[last.index := last.value]
  }

  function Contents(r: Record): ArrayVal { ArrayVal(r.default, Overrides(r.entries)) }

  /** The array behind a handle. */
  function RecordOf(t: Tables, token: Scalar): Option<Record> {
    if t.handles.Some? && token.Opaque? && token.name in t.handles.value then Some(t.handles.value[token.name]) else None
  }

  function Lookup(t: Tables, name: string, sort: Sort): Value {
    if t.arrays.Some? && sort.ArraySort? then
      if name in t.arrays.value then Array(Contents(t.arrays.value[name])) else Unknown
    else if sort.BoolSort? || name in t.booleans then
      if name in t.booleans then Known(Truth(t.booleans[name])) else Unknown
    else if name in t.reals then Known(Num(t.reals[name]))
    else if name in t.numbers then Known(Num(t.numbers[name]))
    else if name in t.tokens then Known(Opaque(t.tokens[name]))
    else Unknown
  }

  /** What a cell of a function's table gives for a result of the sort. */
  function ResultOf(t: Tables, f: FunctionTable, sort: Sort, cell: Cell): Value {
    if cell.text == "" then Unknown
    else if sort.ArraySort? then
      var r := RecordOf(t, Opaque(cell.text));
      if r.Some? && f.retSort == ArrayName(r.value) then Array(Contents(r.value)) else Unknown
    else if f.retSort == "Bool" then
      if cell.truth.Some? then Known(Truth(cell.truth.value)) else Unknown
    else match cell.numeral
      case Numeral(q) => if f.retSort == "Int" && !Integral(q) then Unknown else Known(Num(q))
      case ZeroDenominator => Unknown
      case NotNumeral => if f.retSort == "Int" || f.retSort == "Real" then Unknown else Known(Opaque(cell.text))
  }

  function ZeroExtension(table: Option<map<int, real>>, a: int): Value {
    if table.None? then Unknown else
    var value := if a in table.value then table.value[a] else 0.0;
    if Integral(value) then Known(Num(value)) else Unknown
  }

  /** The equality token of a value. */
  function AsToken(t: Tables, v: Value): Option<Scalar> {
    if v.Known? && (v.scalar.Num? ==> t.rational(v.scalar.number)) then Some(v.scalar) else None
  }

  function EqualArrays(a: ArrayVal, b: ArrayVal, index: Sort): Option<bool> {
    if index.BoolSort? then
      Some(At(a, Truth(false)) == At(b, Truth(false)) && At(a, Truth(true)) == At(b, Truth(true)))
    else if exists key | key in a.overrides :: a.overrides[key] != At(b, key) then Some(false)
    else if exists key | key in b.overrides :: b.overrides[key] != At(a, key) then Some(false)
    else if a.default == b.default then Some(true)
    else if index.IntSort? || index.RealSort? then Some(false)
    else None
  }

  function NumberOf(v: Value): Option<real> {
    if v.Known? && v.scalar.Num? then Some(v.scalar.number) else None
  }

  function BoolOf(v: Value): Option<bool> {
    if v.Known? && v.scalar.Truth? then Some(v.scalar.truth) else None
  }

  function NumbersOf(vs: seq<Value>): seq<Option<real>> {
    seq(|vs|, k requires 0 <= k < |vs| => NumberOf(vs[k]))
  }

  function BoolsOf(vs: seq<Value>): seq<Option<bool>> {
    seq(|vs|, k requires 0 <= k < |vs| => BoolOf(vs[k]))
  }

  function OfTruth(b: Option<bool>): Value { if b.Some? then Known(Truth(b.value)) else Unknown }

  function OfReal(x: Option<real>): Value { if x.Some? then Known(Num(x.value)) else Unknown }

  function Total(xs: seq<Option<real>>): Option<real> {
    if xs == [] then Some(0.0) else
    var front, last := Total(xs[..|xs| - 1]), xs[|xs| - 1];
    if front.Some? && last.Some? then Some(front.value + last.value) else None
  }

  function Product(xs: seq<Option<real>>): Option<real> {
    if xs == [] then Some(1.0) else Times(Product(xs[..|xs| - 1]), xs[|xs| - 1])
  }

  function Times(a: Option<real>, b: Option<real>): Option<real> {
    if a.Some? && b.Some? then Some(a.value * b.value) else None
  }

  function Parity(xs: seq<Option<bool>>): Option<bool> {
    if xs == [] then Some(false) else
    var front, last := Parity(xs[..|xs| - 1]), xs[|xs| - 1];
    if front.Some? && last.Some? then Some(front.value != last.value) else None
  }

  /** The comparison of two known values, if it can be decided. */
  function Compare(t: Tables, sort: Sort, a: Value, b: Value): Option<bool> {
    match (a, b)
    case (Array(x), Array(y)) => if sort.ArraySort? then EqualArrays(x, y, sort.index) else None
    case (Known(Num(x)), Known(Num(y))) => Some(x == y)
    case _ =>
      var x, y := AsToken(t, a), AsToken(t, b);
      if x.Some? && y.Some? then Some(x.value == y.value) else None
  }

  /** A junction scanned from the left: a deciding value ends it, a value that is not Boolean spoils it. */
  function Junction(vs: seq<Value>, identity: bool, unknown: bool): Value {
    if vs == [] then (if unknown then Unknown else Known(Truth(identity)))
    else if vs[0].Unknown? then Junction(vs[1..], identity, true)
    else if BoolOf(vs[0]).None? then Unknown
    else if BoolOf(vs[0]).value != identity then Known(Truth(!identity))
    else Junction(vs[1..], identity, unknown)
  }

  /** Integer quotient and remainder by way of the divisor's magnitude. */
  function QuotientOf(a: int, b: int): int
    requires b != 0
  {
    var absB := if b < 0 then -b else b;
    if b > 0 then a / absB else -(a / absB)
  }

  function RemainderOf(a: int, b: int): int
    requires b != 0
  {
    a % (if b < 0 then -b else b)
  }

  function DivValue(t: Tables, sort: Sort, a: real, b: real): Value {
    if b == 0.0 then
      if sort.IntSort? && Integral(a) then ZeroExtension(t.divZero, a.Floor) else Unknown
    else if sort.IntSort? then
      if Integral(a) && Integral(b) then Known(Num(QuotientOf(a.Floor, b.Floor) as real)) else Unknown
    else Known(Num(a / b))
  }

  function ModValue(t: Tables, a: real, b: real): Value {
    if !Integral(a) || !Integral(b) then Unknown
    else if b == 0.0 then ZeroExtension(t.modZero, a.Floor)
    else Known(Num(RemainderOf(a.Floor, b.Floor) as real))
  }

  /** How an argument relates to a key. */
  datatype Fit = Fits | Differs | Uncertain | Illegible

  function OfComparison(same: Option<bool>): Fit {
    match same
    case Some(true) => Fits
    case Some(false) => Differs
    case None => Uncertain
  }

  /** Array keys are handles, looked up and compared with the argument's contents. */
  function KeyFit(t: Tables, sort: Sort, v: Value, key: Cell, argSort: string): Fit {
    match v
    case Array(a) =>
      var r := RecordOf(t, Opaque(key.text));
      if !sort.ArraySort? || r.None? then Uncertain
      else if argSort != ArrayName(r.value) then Illegible
      else OfComparison(EqualArrays(a, Contents(r.value), sort.index))
    case Known(Num(x)) =>
      if !key.numeral.Numeral? || (argSort == "Int" && !Integral(key.numeral.q)) then Illegible
      else if x == key.numeral.q then Fits else Differs
    case Known(Truth(b)) =>
      if key.truth.None? then Illegible else if b == key.truth.value then Fits else Differs
    case Known(Opaque(s)) => if s == key.text then Fits else Differs
    case Unknown => Uncertain
  }

  /** The row as a whole, arguments from the left. */
  function RowFit(t: Tables, sorts: seq<Sort>, vs: seq<Value>, keys: seq<Cell>, argSorts: seq<string>): Fit
    requires |sorts| == |vs| == |keys| == |argSorts|
  {
    if vs == [] then Fits else
    var m := |vs| - 1;
    var front := RowFit(t, sorts[..m], vs[..m], keys[..m], argSorts[..m]);
    var last := KeyFit(t, sorts[m], vs[m], keys[m], argSorts[m]);
    if front == Illegible || last == Illegible then Illegible
    else if front == Differs || last == Differs then Differs
    else if front == Uncertain || last == Uncertain then Uncertain
    else Fits
  }

  /** The cell all fitting rows agree on, or the default. */
  function Scan(t: Tables, f: FunctionTable, sorts: seq<Sort>, vs: seq<Value>, n: nat): Option<Option<Cell>>
    requires n <= |f.rows| && |sorts| == |vs| == |f.argSorts|
  {
    if n == 0 then Some(None) else
    var row := f.rows[n - 1];
    match Scan(t, f, sorts, vs, n - 1)
    case None => None
    case Some(found) =>
      if |row.args| != |vs| then None else
      match RowFit(t, sorts, vs, row.args, f.argSorts)
      case Illegible => None
      case Uncertain => None
      case Differs => Some(found)
      case Fits => if found.Some? && found.value.text != row.value.text then None else Some(Some(row.value))
  }

  function ApplyTable(t: Tables, f: FunctionTable, sorts: seq<Sort>, sort: Sort, vs: seq<Value>): Value
    requires |sorts| == |vs|
  {
    if |f.argSorts| != |vs| then Unknown else
    match Scan(t, f, sorts, vs, |f.rows|)
    case None => Unknown
    case Some(found) => ResultOf(t, f, sort, if found.Some? then found.value else f.default)
  }

  /** The sorts of a node's children. */
  function ChildSorts(ir: Dag, id: nat): (sorts: seq<Sort>)
    requires Ordered(ir) && id < |ir|
    ensures |sorts| == |ir[id].children|
  {
    seq(|ir[id].children|, k requires 0 <= k < |ir[id].children| => ir[ir[id].children[k]].sort)
  }

  /** An element read from an array: a scalar, or the array behind a handle. */
  function Element(t: Tables, sort: Sort, token: Scalar): Value {
    if !sort.ArraySort? then Known(token)
    else if RecordOf(t, token).Some? then Array(Contents(RecordOf(t, token).value))
    else Unknown
  }

  predicate Ordering(op: Op, a: real, b: real)
    requires op.Lt? || op.Leq? || op.Gt? || op.Geq?
  {
    match op
    case Lt => a < b
    case Leq => a <= b
    case Gt => a > b
    case Geq => a >= b
  }

  function Relate(op: Op, vs: seq<Value>): Value
    requires op.Lt? || op.Leq? || op.Gt? || op.Geq?
  {
    if |vs| == 2 && NumberOf(vs[0]).Some? && NumberOf(vs[1]).Some?
    then Known(Truth(Ordering(op, NumberOf(vs[0]).value, NumberOf(vs[1]).value))) else Unknown
  }

  /** One node from its children's values. */
  function Step(ir: Dag, t: Tables, id: nat, vs: seq<Value>): Value
    requires Ordered(ir) && id < |ir| && |vs| == |ir[id].children|
  {
    var n := ir[id];
    match n.op
    case BoolConst(b) => Known(Truth(b))
    case NumConst(q) => Known(Num(q))
    case Variable(name) => Lookup(t, name, n.sort)
    case UFApply(symbol) => if symbol in t.functions then ApplyTable(t, t.functions[symbol], ChildSorts(ir, id), n.sort, vs) else Unknown
    case Add => OfReal(Total(NumbersOf(vs)))
    case Sub =>
      if vs == [] then Unknown else
      (match (NumberOf(vs[0]), Total(NumbersOf(vs[1..])))
       case (Some(a), Some(b)) => Known(Num(a - b))
       case _ => Unknown)
    case Mul => OfReal(Product(NumbersOf(vs)))
    case Neg => if |vs| == 1 && NumberOf(vs[0]).Some? then Known(Num(-NumberOf(vs[0]).value)) else Unknown
    case Abs => if |vs| == 1 && NumberOf(vs[0]).Some? then Known(Num(var x := NumberOf(vs[0]).value; if x < 0.0 then -x else x)) else Unknown
    case Div =>
      if |vs| == 2 && NumberOf(vs[0]).Some? && NumberOf(vs[1]).Some?
      then DivValue(t, n.sort, NumberOf(vs[0]).value, NumberOf(vs[1]).value) else Unknown
    case Mod =>
      if |vs| == 2 && NumberOf(vs[0]).Some? && NumberOf(vs[1]).Some?
      then ModValue(t, NumberOf(vs[0]).value, NumberOf(vs[1]).value) else Unknown
    case ToReal => if |vs| == 1 then vs[0] else Unknown
    case ToInt => if |vs| == 1 && NumberOf(vs[0]).Some? then Known(Num(NumberOf(vs[0]).value.Floor as real)) else Unknown
    case IsInt => if |vs| == 1 && NumberOf(vs[0]).Some? then Known(Truth(Integral(NumberOf(vs[0]).value))) else Unknown
    case Eq => if |vs| == 2 then OfTruth(Compare(t, ir[n.children[0]].sort, vs[0], vs[1])) else Unknown
    case Distinct =>
      if Unknown in vs then Unknown
      else if exists k: nat, l: nat :: k < l < |vs| && Compare(t, ir[n.children[k]].sort, vs[k], vs[l]) == Some(true) then Known(Truth(false))
      else if exists k: nat, l: nat :: k < l < |vs| && Compare(t, ir[n.children[k]].sort, vs[k], vs[l]) == None then Unknown
      else Known(Truth(true))
    case And => Junction(vs, true, false)
    case Or => Junction(vs, false, false)
    case Not => if |vs| == 1 && BoolOf(vs[0]).Some? then Known(Truth(!BoolOf(vs[0]).value)) else Unknown
    case Implies =>
      if |vs| == 2 && BoolOf(vs[0]).Some? && BoolOf(vs[1]).Some?
      then Known(Truth(!BoolOf(vs[0]).value || BoolOf(vs[1]).value)) else Unknown
    case Xor => if vs == [] then Unknown else OfTruth(Parity(BoolsOf(vs)))
    case Ite => if |vs| == 3 && BoolOf(vs[0]).Some? then (if BoolOf(vs[0]).value then vs[1] else vs[2]) else Unknown
    case ConstArray => if |vs| == 1 && AsToken(t, vs[0]).Some? then Array(ArrayVal(AsToken(t, vs[0]).value, map[])) else Unknown
    case Store =>
      if |vs| == 3 && vs[0].Array? && AsToken(t, vs[1]).Some? && AsToken(t, vs[2]).Some?
      then (var a := vs[0].contents; Array(a.(overrides := a.overrides[AsToken(t, vs[1]).value := AsToken(t, vs[2]).value]))) else Unknown
    case Select =>
      if |vs| == 2 && vs[0].Array? && AsToken(t, vs[1]).Some?
      then Element(t, n.sort, At(vs[0].contents, AsToken(t, vs[1]).value)) else Unknown
    case Lt => Relate(n.op, vs)
    case Leq => Relate(n.op, vs)
    case Gt => Relate(n.op, vs)
    case Geq => Relate(n.op, vs)
    case Unsupported => Unknown
  }

  /** Direct recursion. */
  function Evaluate(ir: Dag, t: Tables, id: nat): Value
    requires Ordered(ir)
    decreases id
  {
    if id >= |ir| then Unknown else
    var c := ir[id].children;
    Step(ir, t, id, seq(|c|, k requires 0 <= k < |c| => Evaluate(ir, t, c[k])))
  }

  datatype Verdict = Satisfied | Violated | Indeterminate

  /** The verdict as a function of the assertions' values. */
  function VerdictOf(ir: Dag, t: Tables, assertions: seq<nat>): Verdict
    requires Ordered(ir)
  {
    if exists a | a in assertions :: Evaluate(ir, t, a) == Known(Truth(false)) then Violated
    else if forall a | a in assertions :: Evaluate(ir, t, a) == Known(Truth(true)) then Satisfied
    else Indeterminate
  }

  /** The evaluator's caches: one filled bottom-up for the current query, one filled on demand. */
  class Validator {
    const ir: Dag
    const t: Tables
    var memo: map<nat, Value>
    var prepass: map<nat, Value>

    ghost predicate Valid()
      reads this
    {
      Ordered(ir) && Correct(memo) && Correct(prepass)
    }

    ghost predicate Correct(cache: map<nat, Value>)
      requires Ordered(ir)
    {
      forall id | id in cache :: cache[id] == Evaluate(ir, t, id)
    }

    constructor (ir: Dag, t: Tables)
      requires Ordered(ir)
      ensures Valid() && this.ir == ir && this.t == t
    {
      this.ir, this.t, memo, prepass := ir, t, map[], map[];
    }

    /** Cached, or evaluated and cached. */
    method Eval(id: nat) returns (r: Value)
      requires Valid()
      modifies this`memo
      ensures Valid() && r == Evaluate(ir, t, id)
      ensures id in prepass ==> memo == old(memo)
      decreases id, 1
    {
      if id in prepass {
        return prepass[id];
      }
      if id in memo {
        return memo[id];
      }
      r := EvalImpl(id);
      memo := memo[id := r];
    }

    /** One node.  It evaluates nothing else when its children are in the current cache. */
    method EvalImpl(id: nat) returns (r: Value)
      requires Valid()
      modifies this`memo
      ensures Valid() && r == Evaluate(ir, t, id)
      ensures id < |ir| && (forall k: nat | k < |ir[id].children| :: ir[id].children[k] in prepass) ==> memo == old(memo)
      decreases id, 0
    {
      hide Step;
      if id >= |ir| {
        return Unknown;
      }
      var c := ir[id].children;
      var vs: seq<Value> := [];
      for k := 0 to |c|
        invariant Valid() && |vs| == k && forall j | 0 <= j < k :: vs[j] == Evaluate(ir, t, c[j])
        invariant (forall k: nat | k < |c| :: c[k] in prepass) ==> memo == old(memo)
      {
        var v := Eval(c[k]);
        vs := vs + [v];
      }
      assert vs == seq(|c|, k requires 0 <= k < |c| => Evaluate(ir, t, c[k]));
      return Step(ir, t, id, vs);
    }

    /** Evaluate everything below a root, children first, without recursion: the memo stays as it is. */
    method WarmEval(root: nat)
      requires Valid()
      modifies this
      ensures Valid() && memo == old(memo) && old(prepass.Keys) <= prepass.Keys
      ensures root < |ir| ==> root in prepass
    {
      hide Evaluate, Step, Waiting, Potential;
      if root >= |ir| {
        return;
      }
      ghost var always: nat -> bool := _ => true;
      var stack := [Frame(root, false)];
      NothingWaits(ir, always, prepass.Keys, root);
      while stack != []
        invariant Valid() && memo == old(memo) && old(prepass.Keys) <= prepass.Keys
        invariant Waiting(ir, always, prepass.Keys, stack)
        invariant forall j | 0 <= j < |stack| :: stack[j].id < |ir|
        invariant root in prepass || (stack != [] && stack[0].id == root)
        decreases Potential(ir, stack)
      {
        var top := stack[|stack| - 1];
        var below := stack[..|stack| - 1];
        assert stack == below + [top];
        PotentialPush(ir, below, top);
        if top.id in prepass {
          WaitingPop(ir, always, prepass.Keys, below, top, prepass.Keys);
          stack := below;
        } else if !top.processed {
          stack := Expand(ir, always, prepass.Keys, below, top.id);
        } else {
          ChildrenDone(ir, always, prepass.Keys, below, top.id);
          var value := EvalImpl(top.id);
          WaitingPop(ir, always, prepass.Keys, below, top, prepass.Keys + {top.id});
          assert prepass[top.id := value].Keys == prepass.Keys + {top.id};
          prepass := prepass[top.id := value];
          stack := below;
        }
      }
    }

    /** Satisfied, violated, or neither shown. */
    method Validate(assertions: seq<nat>) returns (verdict: Verdict)
      requires Valid()
      modifies this
      ensures Valid() && verdict == VerdictOf(ir, t, assertions)
    {
      hide Evaluate;
      memo, prepass := map[], map[];
      for k := 0 to |assertions|
        invariant Valid()
      {
        WarmEval(assertions[k]);
      }
      var anyIndeterminate := false;
      for k := 0 to |assertions|
        invariant Valid()
        invariant forall j | 0 <= j < k :: Evaluate(ir, t, assertions[j]) != Known(Truth(false))
        invariant anyIndeterminate <==> exists j :: 0 <= j < k && Evaluate(ir, t, assertions[j]) != Known(Truth(true))
      {
        var r := Eval(assertions[k]);
        if BoolOf(r).None? {
          anyIndeterminate := true;
        } else if !BoolOf(r).value {
          assert assertions[k] in assertions;
          return Violated;
        }
      }
      if anyIndeterminate {
        var j :| 0 <= j < |assertions| && Evaluate(ir, t, assertions[j]) != Known(Truth(true));
        assert assertions[j] in assertions;
      }
      return if anyIndeterminate then Indeterminate else Satisfied;
    }
  }
}
