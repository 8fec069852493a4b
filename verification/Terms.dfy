/** The term DAG every algorithm below reads: nodes are numbered, children first. */
module Terms {
  datatype Sort = BoolSort | IntSort | RealSort | ArraySort(index: Sort, element: Sort) | NamedSort(name: string)

  /** A sort as SMT-LIB writes it. */
  function Spell(sort: Sort): string {
    match sort
    case BoolSort => "Bool"
    case IntSort => "Int"
    case RealSort => "Real"
    case ArraySort(index, element) => "(Array " + Spell(index) + " " + Spell(element) + ")"
    case NamedSort(name) => name
  }

  datatype Op =
    | BoolConst(truth: bool)
    | NumConst(number: real)
    | Variable(name: string)
    | UFApply(symbol: string)
    | Not | And | Or | Implies | Xor | Ite | Eq | Distinct
    | Add | Sub | Neg | Mul | Div | Mod | Abs
    | Lt | Leq | Gt | Geq
    | ToReal | ToInt | IsInt
    | Select | Store | ConstArray
    | Unsupported

  datatype Term = Term(op: Op, sort: Sort, children: seq<nat>)

  type Dag = seq<Term>

  /** Children precede their parents. */
  predicate Ordered(ir: Dag) {
    forall i: nat, k: nat | i < |ir| && k < |ir[i].children| :: ir[i].children[k] < i
  }

  /** The handles below a bound. */
  ghost function Below(n: nat): (s: set<nat>)
    ensures forall x: nat :: x in s <==> x < n
    ensures |s| == n
  {
    if n == 0 then {} else Below(n - 1) + {n - 1}
  }
}
