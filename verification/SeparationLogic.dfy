/** Spatial formulas over one typed heap, and their textbook meaning:
    star ranges over every split of the heap, wand over every finite typed
    extension of it. */
module SeparationLogic {
  datatype FieldSort = LocationSort | IntegerSort

  /** A field of a points-to atom: a location symbol or an integer literal. */
  datatype Field = Symbol(location: nat) | Literal(number: int)

  /** A field stored in a concrete cell. */
  datatype Value = Address(address: nat) | Number(number: int)

  type Record = seq<Value>
  type Heap = map<nat, Record>
  type Stack = map<nat, nat>

  datatype Kind =
    | Boolean(truth: bool)
    | Relation(left: nat, right: nat, equal: bool)
    | Emp
    | PointsTo(cell: nat, fields: seq<Field>)
    | Not
    | And
    | Or
    | Star
    | Wand

  datatype Node = Node(kind: Kind, children: seq<nat>)

  /** A formula DAG; location symbol 0 is nil. */
  datatype Formula = Formula(fieldSorts: seq<FieldSort>, nodes: seq<Node>, root: nat)

  function Arity(k: Kind): nat {
    match k
    case Not => 1
    case And => 2
    case Or => 2
    case Star => 2
    case Wand => 2
    case _ => 0
  }

  predicate FieldsFit(sorts: seq<FieldSort>, fields: seq<Field>) {
    && |fields| == |sorts|
    && forall j | 0 <= j < |sorts| :: sorts[j].LocationSort? == fields[j].Symbol?
  }

  predicate RecordFits(sorts: seq<FieldSort>, r: Record) {
    && |r| == |sorts|
    && forall j | 0 <= j < |sorts| :: sorts[j].LocationSort? == r[j].Address?
  }

  predicate NodeFits(f: Formula, i: nat)
    requires i < |f.nodes|
  {
    var n := f.nodes[i];
    && |n.children| == Arity(n.kind)
    && (forall k | 0 <= k < |n.children| :: n.children[k] < i)
    && (n.kind.PointsTo? ==> FieldsFit(f.fieldSorts, n.kind.fields))
  }

  /** Children precede their parents, arities and sorts agree, and the root exists. */
  predicate WellFormed(f: Formula) {
    && f.root < |f.nodes|
    && forall i: nat | i < |f.nodes| :: NodeFits(f, i)
  }

  function At(stack: Stack, location: nat): nat {
    if location in stack then stack[location] else 0
  }

  function Instantiate(fields: seq<Field>, stack: Stack): (r: Record)
    ensures |r| == |fields|
    ensures forall j | 0 <= j < |fields| :: fields[j].Symbol? == r[j].Address?
  {
    seq(|fields|, j requires 0 <= j < |fields| =>
      match fields[j]
      case Symbol(location) => Address(At(stack, location))
      case Literal(number) => Number(number))
  }

  /** Nil is never allocated and every cell has the declared signature. */
  predicate Typed(sorts: seq<FieldSort>, h: Heap) {
    0 !in h && forall a | a in h :: RecordFits(sorts, h[a])
  }

  ghost predicate Splits(h: Heap, a: Heap, b: Heap) {
    a.Keys !! b.Keys && h == a + b
  }

  ghost predicate Extends(sorts: seq<FieldSort>, h: Heap, e: Heap) {
    Typed(sorts, e) && e.Keys !! h.Keys
  }

  ghost predicate Sat(f: Formula, stack: Stack, id: nat, h: Heap)
    requires WellFormed(f) && id < |f.nodes|
    decreases id
  {
    assert NodeFits(f, id);
    var c := f.nodes[id].children;
    match f.nodes[id].kind
    case Boolean(truth) => truth
    case Relation(left, right, equal) => (At(stack, left) == At(stack, right)) == equal
    case Emp => h == map[]
    case PointsTo(cell, fields) => At(stack, cell) != 0 && h == map[At(stack, cell) := Instantiate(fields, stack)]
    case Not => !Sat(f, stack, c[0], h)
    case And => Sat(f, stack, c[0], h) && Sat(f, stack, c[1], h)
    case Or => Sat(f, stack, c[0], h) || Sat(f, stack, c[1], h)
    case Star => exists a: Heap, b: Heap :: Splits(h, a, b) && Sat(f, stack, c[0], a) && Sat(f, stack, c[1], b)
    case Wand => forall e: Heap :: Extends(f.fieldSorts, h, e) && Sat(f, stack, c[0], e) ==> Sat(f, stack, c[1], h + e)
  }

  /** How many unmentioned cells a subformula can tell apart. */
  function Width(f: Formula, id: nat): nat
    requires WellFormed(f) && id < |f.nodes|
    decreases id
  {
    assert NodeFits(f, id);
    var c := f.nodes[id].children;
    match f.nodes[id].kind
    case Boolean(_) => 0
    case Relation(_, _, _) => 0
    case Emp => 1
    case PointsTo(_, _) => 1
    case Not => Width(f, c[0])
    case And => Max(Width(f, c[0]), Width(f, c[1]))
    case Or => Max(Width(f, c[0]), Width(f, c[1]))
    case Star => Width(f, c[0]) + Width(f, c[1])
    case Wand => Width(f, c[1])
  }

  /** Nesting of connectives. */
  function Depth(f: Formula, id: nat): nat
    requires WellFormed(f) && id < |f.nodes|
    decreases id
  {
    assert NodeFits(f, id);
    var c := f.nodes[id].children;
    1 + match f.nodes[id].kind
        case Not => Depth(f, c[0])
        case And => Max(Depth(f, c[0]), Depth(f, c[1]))
        case Or => Max(Depth(f, c[0]), Depth(f, c[1]))
        case Star => Max(Depth(f, c[0]), Depth(f, c[1]))
        case Wand => Max(Depth(f, c[0]), Depth(f, c[1]))
        case _ => 0
  }

  /** How many cells the wands below a node may add to a heap over `n` mentioned addresses. */
  function Growth(f: Formula, n: nat, id: nat): nat
    requires WellFormed(f) && id < |f.nodes|
    decreases id
  {
    assert NodeFits(f, id);
    var c := f.nodes[id].children;
    match f.nodes[id].kind
    case Not => Growth(f, n, c[0])
    case And => Max(Growth(f, n, c[0]), Growth(f, n, c[1]))
    case Or => Max(Growth(f, n, c[0]), Growth(f, n, c[1]))
    case Star => Max(Growth(f, n, c[0]), Growth(f, n, c[1]))
    case Wand => n + Max(Width(f, c[0]), Width(f, c[1])) + Max(Growth(f, n, c[0]), Growth(f, n, c[1]))
    case _ => 0
  }

  function Max(a: nat, b: nat): nat {
    if a < b then b else a
  }

  /** The location symbols a node mentions itself. */
  function Mentions(k: Kind): set<nat> {
    match k
    case Relation(left, right, _) => {left, right}
    case PointsTo(cell, fields) => {cell} + set field | field in fields && field.Symbol? :: field.location
    case _ => {}
  }

  /** Every symbol below `id` is interpreted, and every points-to atom speaks only
      of the given addresses and records. */
  ghost predicate Covers(f: Formula, stack: Stack, addresses: set<nat>, records: set<Record>, id: nat)
    requires WellFormed(f) && id < |f.nodes|
    decreases id
  {
    assert NodeFits(f, id);
    var n := f.nodes[id];
    && Mentions(n.kind) <= stack.Keys
    && (n.kind.PointsTo? ==>
          && (At(stack, n.kind.cell) == 0 || At(stack, n.kind.cell) in addresses)
          && Instantiate(n.kind.fields, stack) in records)
    && forall k | 0 <= k < |n.children| :: Covers(f, stack, addresses, records, n.children[k])
  }

  /** `to` is `from` or lies below it. */
  ghost predicate Reaches(f: Formula, from: nat, to: nat)
    requires WellFormed(f) && from < |f.nodes|
    decreases from
  {
    assert NodeFits(f, from);
    var c := f.nodes[from].children;
    from == to || exists k :: 0 <= k < |c| && Reaches(f, c[k], to)
  }

  lemma {:induction false} ReachesChild(f: Formula, a: nat, b: nat, k: nat)
    requires WellFormed(f) && a < |f.nodes| && b < |f.nodes|
    requires Reaches(f, a, b) && k < |f.nodes[b].children|
    ensures NodeFits(f, b) && Reaches(f, a, f.nodes[b].children[k])
    decreases a
  {
    assert NodeFits(f, a) && NodeFits(f, b);
    var c := f.nodes[a].children;
    if a == b {
      assert Reaches(f, c[k], c[k]);
    } else {
      var j :| 0 <= j < |c| && Reaches(f, c[j], b);
      ReachesChild(f, c[j], b, k);
    }
  }

  /** Whatever is reached is reached through a reached parent. */
  lemma {:induction false} ReachesParent(f: Formula, a: nat, c: nat) returns (b: nat)
    requires WellFormed(f) && a < |f.nodes|
    requires Reaches(f, a, c) && a != c
    ensures c < b <= a && Reaches(f, a, b) && c in f.nodes[b].children
    decreases a
  {
    assert NodeFits(f, a);
    var children := f.nodes[a].children;
    var k :| 0 <= k < |children| && Reaches(f, children[k], c);
    if children[k] == c {
      b := a;
    } else {
      b := ReachesParent(f, children[k], c);
      assert NodeFits(f, a);
    }
  }

  /** Every symbol that evaluating the root can look up, including nil. */
  ghost predicate Symbolic(f: Formula, x: nat)
    requires WellFormed(f)
  {
    x == 0 || exists i: nat :: i < |f.nodes| && Reaches(f, f.root, i) && x in Mentions(f.nodes[i].kind)
  }

  /** The input conditions under which truth is defined. */
  ghost predicate Interprets(f: Formula, stack: Stack, h: Heap)
    requires WellFormed(f)
  {
    && (forall x: nat | Symbolic(f, x) :: x in stack)
    && At(stack, 0) == 0
    && Typed(f.fieldSorts, h)
  }
}
