/** What terms mean in a total interpretation. */
module ArithModelSemantics {
  import opened Basics
  import opened Terms
  import opened ArithModelTables

  /** What a term denotes. */
  datatype Meaning = Plain(scalar: Scalar) | Mapping(f: Scalar -> Meaning)

  /** The elements of uninterpreted sorts, and what handles without an array stand for. */
  datatype World = World(universe: (string, Scalar) -> bool, dangling: (Scalar, Sort) -> Meaning)

  /** A total interpretation: symbols, division and remainder by zero, and a meaning for
      whatever is not covered. */
  datatype Interpretation = Interpretation(
    world: World,
    variable: (string, Sort) -> Meaning,
    apply: (string, seq<Meaning>) -> Meaning,
    divZero: int -> real,
    modZero: int -> real,
    other: nat -> Meaning)

  /** The scalars of a sort that is no array sort. */
  predicate InDomain(universe: (string, Scalar) -> bool, sort: Sort, s: Scalar) {
    match sort
    case BoolSort => s.Truth?
    case IntSort => s.Num? && Integral(s.number)
    case RealSort => s.Num?
    case NamedSort(name) => s.Opaque? && universe(name, s)
    case ArraySort(_, _) => false
  }

  /** What a token of the sort denotes: itself, or the array behind the handle. */
  function DenoteToken(t: Tables, w: World, sort: Sort, token: Scalar): Meaning
    decreases sort, 1
  {
    if !sort.ArraySort? then Plain(token)
    else if Resolves(t, token) then DenoteRecord(t, w, sort, t.handles.value[token.name])
    else w.dangling(token, sort)
  }

  /** A stored array, element by element. */
  function DenoteRecord(t: Tables, w: World, sort: Sort, r: Record): Meaning
    requires sort.ArraySort?
    decreases sort, 0
  {
    Mapping((s: Scalar) => DenoteToken(t, w, sort.element, Stored(r, s)))
  }

  /** Equal, arrays at every index of their domain. */
  ghost predicate SameMeaning(w: World, sort: Sort, a: Meaning, b: Meaning)
    decreases sort
  {
    if sort.ArraySort? && a.Mapping? && b.Mapping?
    then forall s: Scalar | InDomain(w.universe, sort.index, s) :: SameMeaning(w, sort.element, a.f(s), b.f(s))
    else a == b
  }

  /** The sum, if all are numbers. */
  function SumOf(xs: seq<Option<real>>): Option<real> {
    if xs == [] then Some(0.0)
    else if xs[0].Some? && SumOf(xs[1..]).Some? then Some(xs[0].value + SumOf(xs[1..]).value) else None
  }

  function ProductOf(xs: seq<Option<real>>): Option<real> {
    if xs == [] then Some(1.0) else Multiplied(xs[0], ProductOf(xs[1..]))
  }

  function Multiplied(a: Option<real>, b: Option<real>): Option<real> {
    if a.Some? && b.Some? then Some(a.value * b.value) else None
  }

  /** How many are true, if all are truth values. */
  function CountTrue(bs: seq<Option<bool>>): Option<nat> {
    if bs == [] then Some(0)
    else if bs[0].Some? && CountTrue(bs[1..]).Some? then Some((if bs[0].value then 1 else 0) + CountTrue(bs[1..]).value) else None
  }

  function Number(m: Meaning): Option<real> {
    if m.Plain? && m.scalar.Num? then Some(m.scalar.number) else None
  }

  function Bool(m: Meaning): Option<bool> {
    if m.Plain? && m.scalar.Truth? then Some(m.scalar.truth) else None
  }

  function Numbers(ms: seq<Meaning>): seq<Option<real>> {
    seq(|ms|, k requires 0 <= k < |ms| => Number(ms[k]))
  }

  function Bools(ms: seq<Meaning>): seq<Option<bool>> {
    seq(|ms|, k requires 0 <= k < |ms| => Bool(ms[k]))
  }

  function OfNumber(x: Option<real>, otherwise: Meaning): Meaning {
    if x.Some? then Plain(Num(x.value)) else otherwise
  }

  /** Division of the Ints theory: the quotient whose remainder is in [0, |b|). */
  function Division(i: Interpretation, sort: Sort, a: real, b: real, otherwise: Meaning): Meaning {
    if sort.IntSort? && Integral(a) && Integral(b) then
      if b == 0.0 then Plain(Num(i.divZero(a.Floor))) else Plain(Num((a.Floor / b.Floor) as real))
    else if !sort.IntSort? && b != 0.0 then Plain(Num(a / b))
    else otherwise
  }

  function Remainder(i: Interpretation, a: real, b: real, otherwise: Meaning): Meaning {
    if !Integral(a) || !Integral(b) then otherwise
    else if b == 0.0 then Plain(Num(i.modZero(a.Floor))) else Plain(Num((a.Floor % b.Floor) as real))
  }

  /** Both operands, if they are numbers. */
  function Operands(ms: seq<Meaning>): Option<(real, real)> {
    if |ms| == 2 && Number(ms[0]).Some? && Number(ms[1]).Some? then Some((Number(ms[0]).value, Number(ms[1]).value)) else None
  }

  /** The meaning of a node from its children's; ill-sorted or uncovered nodes are left open. */
  ghost function Denote(ir: Dag, i: Interpretation, id: nat, ms: seq<Meaning>): Meaning
    requires Ordered(ir) && id < |ir| && |ms| == |ir[id].children|
  {
    var n, open := ir[id], i.other(id);
    match n.op
    case BoolConst(b) => Plain(Truth(b))
    case NumConst(q) => Plain(Num(q))
    case Variable(name) => i.variable(name, n.sort)
    case UFApply(symbol) => i.apply(symbol, ms)
    case Add => OfNumber(SumOf(Numbers(ms)), open)
    case Sub =>
      if ms == [] then open else
      (match (Number(ms[0]), SumOf(Numbers(ms[1..])))
       case (Some(a), Some(b)) => Plain(Num(a - b))
       case _ => open)
    case Mul => OfNumber(ProductOf(Numbers(ms)), open)
    case Neg => if |ms| == 1 && Number(ms[0]).Some? then Plain(Num(-Number(ms[0]).value)) else open
    case Abs => if |ms| == 1 && Number(ms[0]).Some? then Plain(Num(var x := Number(ms[0]).value; if x < 0.0 then -x else x)) else open
    case Div =>
      if |ms| == 2 && Number(ms[0]).Some? && Number(ms[1]).Some?
      then Division(i, n.sort, Number(ms[0]).value, Number(ms[1]).value, open) else open
    case Mod =>
      if |ms| == 2 && Number(ms[0]).Some? && Number(ms[1]).Some?
      then Remainder(i, Number(ms[0]).value, Number(ms[1]).value, open) else open
    case ToReal => if |ms| == 1 then ms[0] else open
    case ToInt => if |ms| == 1 && Number(ms[0]).Some? then Plain(Num(Number(ms[0]).value.Floor as real)) else open
    case IsInt => if |ms| == 1 && Number(ms[0]).Some? then Plain(Truth(Integral(Number(ms[0]).value))) else open
    case Eq => if |ms| == 2 then Plain(Truth(SameMeaning(i.world, ir[n.children[0]].sort, ms[0], ms[1]))) else open
    case Distinct =>
      Plain(Truth(forall k: nat, l: nat | k < l < |ms| :: !SameMeaning(i.world, ir[n.children[k]].sort, ms[k], ms[l])))
    case And => Plain(Truth(Plain(Truth(false)) !in ms))
    case Or => Plain(Truth(Plain(Truth(true)) in ms))
    case Not => if |ms| == 1 && Bool(ms[0]).Some? then Plain(Truth(!Bool(ms[0]).value)) else open
    case Implies =>
      if |ms| == 2 && Bool(ms[0]).Some? && Bool(ms[1]).Some?
      then Plain(Truth(Bool(ms[0]).value ==> Bool(ms[1]).value)) else open
    case Xor => if ms != [] && CountTrue(Bools(ms)).Some? then Plain(Truth(CountTrue(Bools(ms)).value % 2 == 1)) else open
    case Ite => if |ms| == 3 then (if ms[0] == Plain(Truth(true)) then ms[1] else ms[2]) else open
    case ConstArray => if |ms| == 1 then (var m := ms[0]; Mapping((_: Scalar) => m)) else open
    case Store =>
      if |ms| == 3 && ms[0].Mapping? && ms[1].Plain?
      then (var f, x, v := ms[0].f, ms[1].scalar, ms[2]; Mapping((s: Scalar) => if s == x then v else f(s))) else open
    case Select =>
      if |ms| == 2 && ms[0].Mapping? && ms[1].Plain? then ms[0].f(ms[1].scalar) else open
    case Lt => if Operands(ms).Some? then Plain(Truth(Operands(ms).value.0 < Operands(ms).value.1)) else open
    case Leq => if Operands(ms).Some? then Plain(Truth(Operands(ms).value.0 <= Operands(ms).value.1)) else open
    case Gt => if Operands(ms).Some? then Plain(Truth(Operands(ms).value.0 > Operands(ms).value.1)) else open
    case Geq => if Operands(ms).Some? then Plain(Truth(Operands(ms).value.0 >= Operands(ms).value.1)) else open
    case Unsupported => open
  }

  ghost function Mean(ir: Dag, i: Interpretation, id: nat): Meaning
    requires Ordered(ir) && id < |ir|
    decreases id
  {
    var c := ir[id].children;
    Denote(ir, i, id, seq(|c|, k requires 0 <= k < |c| => Mean(ir, i, c[k])))
  }
}
