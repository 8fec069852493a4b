/** The tables of a model under validation, and the values they are made of. */
module ArithModelTables {
  import opened Basics
  import opened Terms

  /** A canonical scalar: numerals, truth values and opaque tokens never coincide.  An opaque
      token is an element of an uninterpreted sort or the handle of an array. */
  datatype Scalar = Num(number: real) | Truth(truth: bool) | Opaque(name: string)

  /** A default element and finitely many overrides. */
  datatype ArrayVal = ArrayVal(default: Scalar, overrides: map<Scalar, Scalar>)

  datatype Value = Unknown | Known(scalar: Scalar) | Array(contents: ArrayVal)

  function At(a: ArrayVal, key: Scalar): Scalar {
    if key in a.overrides then a.overrides[key] else a.default
  }

  predicate Integral(x: real) { x.Floor as real == x }

  datatype Pair = Pair(index: Scalar, value: Scalar)

  /** One array as the model stores it. */
  datatype Record = Record(indexSort: string, elemSort: string, default: Scalar, entries: seq<Pair>)

  /** The value of the last entry for the index, or the default. */
  function Stored(r: Record, index: Scalar): Scalar { LastEntry(r.entries, index, r.default) }

  function LastEntry(entries: seq<Pair>, index: Scalar, otherwise: Scalar): Scalar {
    if entries == [] then otherwise
    else if entries[|entries| - 1].index == index then entries[|entries| - 1].value
    else LastEntry(entries[..|entries| - 1], index, otherwise)
  }

  /** The entry is for the index and no later one is. */
  predicate LastAt(entries: seq<Pair>, k: nat, index: Scalar) {
    k < |entries| && entries[k].index == index && forall l: nat | k < l < |entries| :: entries[l].index != index
  }

  lemma {:induction false} StoredExact(r: Record, index: Scalar)
    ensures forall k: nat | LastAt(r.entries, k, index) :: Stored(r, index) == r.entries[k].value
    ensures (forall k: nat :: !LastAt(r.entries, k, index)) ==> Stored(r, index) == r.default
  {
    LastEntryExact(r.entries, index, r.default);
  }

  lemma {:induction false} LastEntryExact(entries: seq<Pair>, index: Scalar, otherwise: Scalar)
    ensures forall k: nat | LastAt(entries, k, index) :: LastEntry(entries, index, otherwise) == entries[k].value
    ensures (forall k: nat :: !LastAt(entries, k, index)) ==> LastEntry(entries, index, otherwise) == otherwise
  {
    if entries != [] {
      var n := |entries| - 1;
      if entries[n].index == index {
        assert LastAt(entries, n, index);
      } else {
        var front := entries[..n];
        LastEntryExact(front, index, otherwise);
        forall k: nat ensures LastAt(entries, k, index) <==> LastAt(front, k, index) {
          if LastAt(front, k, index) {
            assert forall l: nat | k < l < n :: front[l].index != index && entries[l] == front[l];
          }
          if LastAt(entries, k, index) {
            assert k < n && forall l: nat | k < l < n :: entries[l] == front[l];
          }
        }
      }
    }
  }

  function ArrayName(r: Record): string { "(Array " + r.indexSort + " " + r.elemSort + ")" }

  datatype Numeral = NotNumeral | ZeroDenominator | Numeral(q: real)

  /** A table cell's text with its numeric and Boolean readings. */
  datatype Cell = Cell(text: string, numeral: Numeral, truth: Option<bool>)

  datatype Row = Row(args: seq<Cell>, value: Cell)
  datatype FunctionTable = FunctionTable(argSorts: seq<string>, retSort: string, rows: seq<Row>, default: Cell)

  /** The model under validation: array variables, arrays behind handles, scalar variables,
      functions, and values at integer zero divisors.  Numbers outside `rational` have no token. */
  datatype Tables = Tables(
    arrays: Option<map<string, Record>>,
    handles: Option<map<string, Record>>,
    booleans: map<string, bool>,
    reals: map<string, real>,
    numbers: map<string, real>,
    tokens: map<string, string>,
    functions: map<string, FunctionTable>,
    divZero: Option<map<int, real>>,
    modZero: Option<map<int, real>>,
    rational: real -> bool)

  /** The token is the handle of an array. */
  predicate Resolves(t: Tables, token: Scalar) {
    t.handles.Some? && token.Opaque? && token.name in t.handles.value
  }

  /** What the tables say of a variable. */
  datatype Said = AnArray(record: Record) | AScalar(scalar: Scalar)

  /** Arrays stand in a table of their own.  Of scalars, a truth value comes first, then a real,
      a rational and a token; a Boolean variable has a truth value or none. */
  predicate Says(t: Tables, name: string, sort: Sort, said: Said) {
    match said
    case AnArray(r) => sort.ArraySort? && t.arrays.Some? && name in t.arrays.value && t.arrays.value[name] == r
    case AScalar(s) =>
      && !(sort.ArraySort? && t.arrays.Some?)
      && match s
         case Truth(b) => name in t.booleans && t.booleans[name] == b
         case Num(x) =>
           && !sort.BoolSort? && name !in t.booleans
           && ((name in t.reals && t.reals[name] == x) || (name !in t.reals && name in t.numbers && t.numbers[name] == x))
         case Opaque(token) =>
           && !sort.BoolSort? && name !in t.booleans && name !in t.reals && name !in t.numbers
           && name in t.tokens && t.tokens[name] == token
  }
}
