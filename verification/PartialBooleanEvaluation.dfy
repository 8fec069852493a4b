/** Three-valued evaluation of Boolean structure on a shared DAG, with a memo and an explicit stack. */
module PartialBooleanEvaluation {
  import opened Basics
  import opened Terms
  import opened PostOrder

  type Truth = Option<bool>
  type Atoms = nat -> Truth

  predicate Structural(op: Op) {
    op.Not? || op.And? || op.Or? || op.Implies? || op.Xor? || op.Ite? || op.Eq? || op.Distinct?
  }

  /** Conjunction for identity true, disjunction for identity false. */
  function Junction(vs: seq<Truth>, identity: bool): Truth {
    if Some(!identity) in vs then Some(!identity) else if None in vs then None else Some(identity)
  }

  predicate Decides(vs: seq<Truth>, i: nat)
    requires i < |vs|
  {
    vs[i] == Some(i + 1 == |vs|)
  }

  function Implication(vs: seq<Truth>): Truth {
    if |vs| < 2 then None
    else if exists i: nat :: i < |vs| && Decides(vs, i) then Some(true)
    else if None in vs then None else Some(false)
  }

  function Parity(vs: seq<Truth>): bool {
    if vs == [] then false else (vs[|vs| - 1] == Some(true)) != Parity(vs[..|vs| - 1])
  }

  function ExclusiveOr(vs: seq<Truth>): Truth {
    if |vs| < 2 || None in vs then None else Some(Parity(vs))
  }

  function Choice(vs: seq<Truth>): Truth {
    if |vs| != 3 then None
    else if vs[0].Some? then (if vs[0].value then vs[1] else vs[2])
    else if vs[1] == vs[2] then vs[1] else None
  }

  /** Two known values whose (dis)equality is not the wanted one. */
  predicate Clashes(vs: seq<Truth>, i: nat, j: nat, equal: bool)
    requires j < i < |vs|
  {
    vs[i].Some? && vs[j].Some? && (vs[i] == vs[j]) != equal
  }

  function Chain(vs: seq<Truth>, equal: bool): Truth {
    if |vs| < 2 then None
    else if exists i: nat, j: nat :: j < i < |vs| && Clashes(vs, i, j, equal) then Some(false)
    else if None in vs then None else Some(true)
  }

  function Combine(op: Op, vs: seq<Truth>): Truth {
    match op
    case BoolConst(b) => Some(b)
    case Not => if |vs| == 1 && vs[0].Some? then Some(!vs[0].value) else None
    case And => Junction(vs, true)
    case Or => Junction(vs, false)
    case Implies => Implication(vs)
    case Xor => ExclusiveOr(vs)
    case Ite => Choice(vs)
    case Eq => Chain(vs, true)
    case Distinct => Chain(vs, false)
    case _ => None
  }

  /** The recursive definition. */
  function Kleene(ir: Dag, atoms: Atoms, id: nat): Truth
    requires Ordered(ir)
    decreases id, 1
  {
    if id >= |ir| || ir[id].sort != BoolSort then None
    else if atoms(id).Some? then atoms(id)
    else Combine(ir[id].op, KleeneAll(ir, atoms, id, ir[id].children))
  }

  function KleeneAll(ir: Dag, atoms: Atoms, bound: nat, ids: seq<nat>): (vs: seq<Truth>)
    requires Ordered(ir) && forall k | 0 <= k < |ids| :: ids[k] < bound
    ensures |vs| == |ids| && forall k | 0 <= k < |ids| :: vs[k] == Kleene(ir, atoms, ids[k])
    decreases bound, 0, |ids|
  {
    if ids == [] then [] else KleeneAll(ir, atoms, bound, ids[..|ids| - 1]) + [Kleene(ir, atoms, ids[|ids| - 1])]
  }

  /** The arities at which a connective is defined. */
  predicate Shaped(op: Op, n: nat) {
    match op
    case BoolConst(_) => true
    case Not => n == 1
    case And => true
    case Or => true
    case Implies => n >= 2
    case Xor => n >= 2
    case Ite => n == 3
    case Eq => n >= 2
    case Distinct => n >= 2
    case _ => false
  }

  /** A node whose connective applies to its children as Boolean terms. */
  predicate Interpreted(ir: Dag, id: nat)
    requires Ordered(ir) && id < |ir|
  {
    && ir[id].sort == BoolSort && Shaped(ir[id].op, |ir[id].children|)
    && (Structural(ir[id].op) ==> forall k: nat | k < |ir[id].children| :: ir[ir[id].children[k]].sort == BoolSort)
  }

  function Xored(bs: seq<bool>): bool {
    if bs == [] then false else bs[|bs| - 1] != Xored(bs[..|bs| - 1])
  }

  /** Two-valued semantics of a connective. */
  predicate Apply(op: Op, bs: seq<bool>)
  {
    match op
    case BoolConst(b) => b
    case Not => |bs| == 1 && !bs[0]
    case And => false !in bs
    case Or => true in bs
    case Implies => |bs| > 0 && ((forall k: nat | k < |bs| - 1 :: bs[k]) ==> bs[|bs| - 1])
    case Xor => Xored(bs)
    case Ite => |bs| == 3 && (if bs[0] then bs[1] else bs[2])
    case Eq => forall i: nat, j: nat | j < i < |bs| :: bs[i] == bs[j]
    case Distinct => forall i: nat, j: nat | j < i < |bs| :: bs[i] != bs[j]
    case _ => false
  }

  /** The value of a node when every opaque node has been given one. */
  function Meaning(ir: Dag, opaques: nat -> bool, id: nat): bool
    requires Ordered(ir)
    decreases id, 1
  {
    if id < |ir| && Interpreted(ir, id)
    then Apply(ir[id].op, MeaningAll(ir, opaques, id, ir[id].children)) else opaques(id)
  }

  function MeaningAll(ir: Dag, opaques: nat -> bool, bound: nat, ids: seq<nat>): (bs: seq<bool>)
    requires Ordered(ir) && forall k | 0 <= k < |ids| :: ids[k] < bound
    ensures |bs| == |ids| && forall k | 0 <= k < |ids| :: bs[k] == Meaning(ir, opaques, ids[k])
    decreases bound, 0, |ids|
  {
    if ids == [] then [] else MeaningAll(ir, opaques, bound, ids[..|ids| - 1]) + [Meaning(ir, opaques, ids[|ids| - 1])]
  }

  /** A total valuation that respects everything the callback knows. */
  ghost predicate Completes(ir: Dag, atoms: Atoms, opaques: nat -> bool)
    requires Ordered(ir)
  {
    forall id: nat | id < |ir| && ir[id].sort == BoolSort && atoms(id).Some? :: Meaning(ir, opaques, id) == atoms(id).value
  }

  /** Each partial value is either unknown or the total one. */
  predicate Agrees(vs: seq<Truth>, bs: seq<bool>) {
    |vs| == |bs| && forall k | 0 <= k < |vs| :: vs[k].Some? ==> vs[k].value == bs[k]
  }

  lemma {:induction false} ParityAgrees(vs: seq<Truth>, bs: seq<bool>)
    requires Agrees(vs, bs) && None !in vs
    ensures Parity(vs) == Xored(bs)
  {
    if vs != [] {
      var n := |vs| - 1;
      assert vs[n] in vs;
      assert None !in vs[..n] by { forall v | v in vs[..n] ensures v in vs {} }
      ParityAgrees(vs[..n], bs[..n]);
    }
  }

  lemma {:induction false} AllKnown(vs: seq<Truth>)
    requires None !in vs
    ensures forall k | 0 <= k < |vs| :: vs[k].Some?
  {
    forall k | 0 <= k < |vs| ensures vs[k].Some? {
      assert vs[k] in vs;
    }
  }

  /** A known combination is what every completion computes. */
  lemma {:induction false} CombineSound(op: Op, vs: seq<Truth>, bs: seq<bool>)
    requires Shaped(op, |vs|) && Agrees(vs, bs) && Combine(op, vs).Some?
    ensures Apply(op, bs) == Combine(op, vs).value
  {
    if None !in vs {
      AllKnown(vs);
    }
    match op
    case Xor => ParityAgrees(vs, bs);
    case And => JunctionSound(vs, bs, true);
    case Or => JunctionSound(vs, bs, false);
    case Implies => ImplicationSound(vs, bs);
    case Eq => ChainSound(vs, bs, true);
    case Distinct => ChainSound(vs, bs, false);
    case _ =>
  }

  lemma {:induction false} ChainSound(vs: seq<Truth>, bs: seq<bool>, equal: bool)
    requires Agrees(vs, bs) && Chain(vs, equal).Some?
    ensures Chain(vs, equal).value == forall i: nat, j: nat | j < i < |bs| :: (bs[i] == bs[j]) == equal
  {
    if i: nat, j: nat :| j < i < |vs| && Clashes(vs, i, j, equal) {
      assert (bs[i] == bs[j]) != equal;
    } else {
      AllKnown(vs);
      forall i: nat, j: nat | j < i < |bs| ensures (bs[i] == bs[j]) == equal {
        assert !Clashes(vs, i, j, equal);
      }
    }
  }

  lemma {:induction false} ImplicationSound(vs: seq<Truth>, bs: seq<bool>)
    requires Agrees(vs, bs) && Implication(vs).Some?
    ensures Implication(vs).value == Apply(Implies, bs)
  {
    if i: nat :| i < |vs| && Decides(vs, i) {
      assert bs[i] == (i + 1 == |bs|);
    } else {
      AllKnown(vs);
      assert forall k: nat | k < |vs| :: !Decides(vs, k);
      assert forall k: nat | k < |bs| - 1 :: bs[k] by {
        forall k: nat | k < |bs| - 1 ensures bs[k] {
          assert !Decides(vs, k);
        }
      }
      assert !Decides(vs, |vs| - 1);
    }
  }

  lemma {:induction false} JunctionSound(vs: seq<Truth>, bs: seq<bool>, identity: bool)
    requires Agrees(vs, bs) && Junction(vs, identity).Some?
    ensures Junction(vs, identity).value == (if identity then false !in bs else true in bs)
  {
    if Some(!identity) in vs {
      var k :| 0 <= k < |vs| && vs[k] == Some(!identity);
      assert bs[k] == !identity;
    } else {
      AllKnown(vs);
      forall k | 0 <= k < |bs| ensures bs[k] == identity {
        assert vs[k] in vs;
      }
    }
  }

  /** Connectives other than (dis)equality have Boolean children; those of a
      (dis)equality are all Boolean or all not. */
  ghost predicate WellSorted(ir: Dag)
    requires Ordered(ir)
  {
    forall id: nat, k: nat, l: nat |
      id < |ir| && k < |ir[id].children| && l < |ir[id].children| && ir[id].sort == BoolSort && Structural(ir[id].op) ::
      var kBool, lBool := ir[ir[id].children[k]].sort == BoolSort, ir[ir[id].children[l]].sort == BoolSort;
      kBool == lBool && (kBool || ir[id].op.Eq? || ir[id].op.Distinct?)
  }

  /** A known result holds under every completion of the unknown atoms. */
  lemma {:induction false} KleeneSound(ir: Dag, atoms: Atoms, opaques: nat -> bool, id: nat)
    requires Ordered(ir) && WellSorted(ir) && Completes(ir, atoms, opaques)
    requires Kleene(ir, atoms, id).Some?
    ensures Meaning(ir, opaques, id) == Kleene(ir, atoms, id).value
    decreases id
  {
    if atoms(id).None? {
      if !Interpreted(ir, id) {
        assert false;
      }
      var c := ir[id].children;
      var vs, bs := KleeneAll(ir, atoms, id, c), MeaningAll(ir, opaques, id, c);
      forall k | 0 <= k < |c| && vs[k].Some? ensures vs[k].value == bs[k] {
        KleeneSound(ir, atoms, opaques, c[k]);
      }
      CombineSound(ir[id].op, vs, bs);
    }
  }

  /** The second callback knows at least what the first one does. */
  ghost predicate Learns(atoms: Atoms, more: Atoms) {
    forall id: nat :: atoms(id).Some? ==> more(id) == atoms(id)
  }

  predicate Refines(vs: seq<Truth>, ws: seq<Truth>) {
    |vs| == |ws| && forall k | 0 <= k < |vs| :: vs[k].Some? ==> ws[k] == vs[k]
  }

  lemma {:induction false} ParityRefines(vs: seq<Truth>, ws: seq<Truth>)
    requires Refines(vs, ws) && None !in vs
    ensures vs == ws
  {
    AllKnown(vs);
  }

  lemma {:induction false} CombineMonotone(op: Op, vs: seq<Truth>, ws: seq<Truth>)
    requires Refines(vs, ws) && Combine(op, vs).Some?
    ensures Combine(op, ws) == Combine(op, vs)
  {
    if None !in vs {
      ParityRefines(vs, ws);
    } else {
      match op
      case Implies =>
        var i: nat :| i < |vs| && Decides(vs, i);
        assert Decides(ws, i);
      case Eq => ChainMonotone(vs, ws, true);
      case Distinct => ChainMonotone(vs, ws, false);
      case _ =>
    }
  }

  lemma {:induction false} ChainMonotone(vs: seq<Truth>, ws: seq<Truth>, equal: bool)
    requires Refines(vs, ws) && None in vs && Chain(vs, equal).Some?
    ensures Chain(ws, equal) == Chain(vs, equal)
  {
    var i: nat, j: nat :| j < i < |vs| && Clashes(vs, i, j, equal);
    assert Clashes(ws, i, j, equal);
  }

  /** A learned value agrees with what evaluation already knows of that term. */
  ghost predicate Compatible(ir: Dag, atoms: Atoms, more: Atoms, id: nat)
    requires Ordered(ir)
  {
    id < |ir| && more(id).Some? && Kleene(ir, atoms, id).Some? ==> more(id) == Kleene(ir, atoms, id)
  }

  /** A known result survives learning. */
  ghost predicate Survives(ir: Dag, atoms: Atoms, more: Atoms, id: nat)
    requires Ordered(ir)
  {
    Kleene(ir, atoms, id).Some? ==> Kleene(ir, more, id) == Kleene(ir, atoms, id)
  }

  lemma {:induction false} LearningKeeps(ir: Dag, atoms: Atoms, more: Atoms, id: nat)
    requires Ordered(ir) && Learns(atoms, more)
    requires forall x: nat :: Compatible(ir, atoms, more, x)
    ensures Survives(ir, atoms, more, id)
    decreases id
  {
    if Kleene(ir, atoms, id).Some? && more(id).None? {
      assert atoms(id).None?;
      var c := ir[id].children;
      var vs, ws := KleeneAll(ir, atoms, id, c), KleeneAll(ir, more, id, c);
      forall k | 0 <= k < |c| && vs[k].Some? ensures ws[k] == vs[k] {
        LearningKeeps(ir, atoms, more, c[k]);
        assert Survives(ir, atoms, more, c[k]);
      }
      CombineMonotone(ir[id].op, vs, ws);
    } else {
      assert Compatible(ir, atoms, more, id);
    }
  }

  /** Learning flips no known result exactly when every learned value of a composite
      agrees with the result already known for it. */
  lemma {:induction false} LearningNeverFlips(ir: Dag, atoms: Atoms, more: Atoms)
    requires Ordered(ir) && Learns(atoms, more)
    ensures (forall id: nat :: Survives(ir, atoms, more, id)) <==> (forall id: nat :: Compatible(ir, atoms, more, id))
  {
    if forall id: nat :: Compatible(ir, atoms, more, id) {
      forall id: nat ensures Survives(ir, atoms, more, id) {
        LearningKeeps(ir, atoms, more, id);
      }
    }
    if forall id: nat :: Survives(ir, atoms, more, id) {
      forall id: nat ensures Compatible(ir, atoms, more, id) {
        assert Survives(ir, atoms, more, id);
      }
    }
  }

  /** Only atoms have been learned: no constant and no connective. */
  ghost predicate OnlyAtoms(ir: Dag, atoms: Atoms, more: Atoms) {
    forall id: nat | id < |ir| && more(id).Some? && atoms(id).None? :: !Structural(ir[id].op) && !ir[id].op.BoolConst?
  }

  /** Learning more atoms never flips a known result. */
  lemma {:induction false} LearningAtomsNeverFlips(ir: Dag, atoms: Atoms, more: Atoms, id: nat)
    requires Ordered(ir) && Learns(atoms, more) && OnlyAtoms(ir, atoms, more)
    ensures Survives(ir, atoms, more, id)
  {
    forall x: nat ensures Compatible(ir, atoms, more, x) {
      AtomUnknownBefore(ir, atoms, more, x);
    }
    LearningKeeps(ir, atoms, more, id);
  }

  lemma {:induction false} AtomUnknownBefore(ir: Dag, atoms: Atoms, more: Atoms, x: nat)
    requires Ordered(ir) && Learns(atoms, more) && OnlyAtoms(ir, atoms, more)
    ensures Compatible(ir, atoms, more, x)
  {
  }

  /** Nor does learning anything, composite or not, that some valuation agrees with. */
  lemma {:induction false} ConsistentLearningNeverFlips(ir: Dag, atoms: Atoms, more: Atoms, opaques: nat -> bool, id: nat)
    requires Ordered(ir) && WellSorted(ir) && Learns(atoms, more) && Completes(ir, more, opaques)
    ensures Survives(ir, atoms, more, id)
  {
    assert Completes(ir, atoms, opaques);
    forall x: nat ensures Compatible(ir, atoms, more, x) {
      if x < |ir| && more(x).Some? && Kleene(ir, atoms, x).Some? {
        KleeneSound(ir, atoms, opaques, x);
      }
    }
    LearningKeeps(ir, atoms, more, id);
  }

  /** Learning a value for a composite that contradicts its structure flips the result. */
  lemma {:induction false} LearningCanFlip(ir: Dag, atoms: Atoms, more: Atoms)
    requires ir == [Term(BoolConst(true), BoolSort, []), Term(Not, BoolSort, [0])]
    requires atoms == (_ => None) && more == (x => if x == 1 then Some(true) else None)
    ensures Ordered(ir) && Learns(atoms, more)
    ensures Kleene(ir, atoms, 1) == Some(false) && Kleene(ir, more, 1) == Some(true)
  {
    assert Kleene(ir, atoms, 0) == Some(true);
    assert KleeneAll(ir, atoms, 1, [0]) == [Some(true)];
  }

  ghost predicate Memoised(ir: Dag, atoms: Atoms, values: map<nat, Truth>)
    requires Ordered(ir)
  {
    forall id | id in values :: values[id] == Kleene(ir, atoms, id)
  }

  method ComputeJunction(vs: seq<Truth>, identity: bool) returns (result: Truth)
    ensures result == Junction(vs, identity)
  {
    result := Some(identity);
    for k := 0 to |vs|
      invariant Some(!identity) !in vs[..k]
      invariant result == if None in vs[..k] then None else Some(identity)
    {
      assert vs[..k + 1] == vs[..k] + [vs[k]];
      if vs[k] == Some(!identity) {
        return Some(!identity);
      }
      if vs[k].None? {
        result := None;
      }
    }
    assert vs[..|vs|] == vs;
  }

  method ComputeImplication(vs: seq<Truth>) returns (result: Truth)
    ensures result == Implication(vs)
  {
    if |vs| < 2 {
      return None;
    }
    result := Some(false);
    for k := 0 to |vs|
      invariant forall i: nat | i < k :: !Decides(vs, i)
      invariant result == if None in vs[..k] then None else Some(false)
    {
      assert vs[..k + 1] == vs[..k] + [vs[k]];
      if vs[k] == Some(k + 1 == |vs|) {
        assert Decides(vs, k);
        return Some(true);
      }
      if vs[k].None? {
        result := None;
      }
    }
    assert vs[..|vs|] == vs;
  }

  method ComputeExclusiveOr(vs: seq<Truth>) returns (result: Truth)
    ensures result == ExclusiveOr(vs)
  {
    if |vs| < 2 {
      return None;
    }
    var parity := false;
    for k := 0 to |vs|
      invariant None !in vs[..k] && parity == Parity(vs[..k])
    {
      assert vs[..k + 1] == vs[..k] + [vs[k]];
      assert vs[..k + 1][..k] == vs[..k];
      if vs[k].None? {
        assert vs[k] in vs;
        return None;
      }
      parity := parity != vs[k].value;
    }
    assert vs[..|vs|] == vs;
    return Some(parity);
  }

  /** The pairwise scan of an equality or disequality chain. */
  method ComputeChain(vs: seq<Truth>, equal: bool) returns (result: Truth)
    ensures result == Chain(vs, equal)
  {
    if |vs| < 2 {
      return None;
    }
    result := Some(true);
    for i := 0 to |vs|
      invariant forall a: nat, b: nat | b < a < i :: !Clashes(vs, a, b, equal)
      invariant result == if i >= 2 && None in vs[..i] then None else Some(true)
    {
      assert vs[..i + 1] == vs[..i] + [vs[i]];
      for j := 0 to i
        invariant forall a: nat, b: nat | b < a < i :: !Clashes(vs, a, b, equal)
        invariant forall b: nat | b < j :: !Clashes(vs, i, b, equal)
        invariant result == if (i >= 2 && None in vs[..i]) || (j > 0 && (vs[i].None? || None in vs[..j])) then None else Some(true)
      {
        assert vs[..j + 1] == vs[..j] + [vs[j]];
        assert forall v | v in vs[..j] :: v in vs[..i];
        if vs[i].None? || vs[j].None? {
          result := None;
        } else if (vs[i] == vs[j]) != equal {
          assert Clashes(vs, i, j, equal);
          return Some(false);
        }
      }
    }
    assert vs[..|vs|] == vs;
  }

  method ComputeCombine(op: Op, vs: seq<Truth>) returns (result: Truth)
    ensures result == Combine(op, vs)
  {
    match op
    case BoolConst(b) => result := Some(b);
    case Not => result := if |vs| == 1 && vs[0].Some? then Some(!vs[0].value) else None;
    case And => result := ComputeJunction(vs, true);
    case Or => result := ComputeJunction(vs, false);
    case Implies => result := ComputeImplication(vs);
    case Xor => result := ComputeExclusiveOr(vs);
    case Ite => result := Choice(vs);
    case Eq => result := ComputeChain(vs, true);
    case Distinct => result := ComputeChain(vs, false);
    case _ => result := None;
  }

  /** Nodes whose value does not depend on their children. */
  predicate Immediate(ir: Dag, atoms: Atoms, id: nat) {
    id >= |ir| || ir[id].sort != BoolSort || atoms(id).Some?
  }

  /** Nodes whose children are evaluated first. */
  function Opens(ir: Dag, atoms: Atoms): nat -> bool {
    (id: nat) => !Immediate(ir, atoms, id) && Structural(ir[id].op)
  }

  /** One evaluator: a fixed DAG and callback, and a memo kept across queries. */
  class Evaluator {
    const ir: Dag
    const atoms: Atoms
    var values: map<nat, Truth>

    constructor (ir: Dag, atoms: Atoms)
      requires Ordered(ir)
      ensures Valid() && this.ir == ir && this.atoms == atoms
    {
      this.ir, this.atoms, values := ir, atoms, map[];
    }

    ghost predicate Valid()
      reads this
    {
      Ordered(ir) && Memoised(ir, atoms, values)
    }

    /** An expanded frame back on top finds all its children valued. */
    method ChildValues(ghost below: seq<Frame>, id: nat) returns (vs: seq<Truth>)
      requires Valid() && Waiting(ir, Opens(ir, atoms), values.Keys, below + [Frame(id, true)])
      ensures !Immediate(ir, atoms, id) && vs == KleeneAll(ir, atoms, id, ir[id].children)
    {
      ChildrenDone(ir, Opens(ir, atoms), values.Keys, below, id);
      var c := ir[id].children;
      vs := [];
      for k := 0 to |c|
        invariant |vs| == k && forall j | 0 <= j < k :: vs[j] == Kleene(ir, atoms, c[j])
      {
        vs := vs + [values[c[k]]];
      }
    }

    /** Memoise a value and drop its frame. */
    method Settle(ghost below: seq<Frame>, top: Frame, value: Truth)
      requires Valid() && Waiting(ir, Opens(ir, atoms), values.Keys, below + [top]) && value == Kleene(ir, atoms, top.id)
      requires top.id !in values
      modifies this
      ensures Valid() && Waiting(ir, Opens(ir, atoms), values.Keys, below) && values == old(values)[top.id := value]
    {
      WaitingPop(ir, Opens(ir, atoms), values.Keys, below, top, values[top.id := value].Keys);
      values := values[top.id := value];
    }

    /** The memoised stack evaluation is the recursive definition. */
    method Evaluate(root: nat) returns (result: Truth)
      requires Valid()
      modifies this
      ensures Valid() && result == Kleene(ir, atoms, root)
      ensures old(values.Keys) <= values.Keys
    {
      var pending := [Frame(root, false)];
      while pending != []
        invariant Valid() && Waiting(ir, Opens(ir, atoms), values.Keys, pending)
        invariant pending == [] || pending[0].id == root
        invariant pending == [] ==> root in values
        invariant old(values.Keys) <= values.Keys
        decreases Potential(ir, pending)
      {
        var top := pending[|pending| - 1];
        var below := pending[..|pending| - 1];
        assert pending == below + [top];
        PotentialPush(ir, below, top);
        if top.id in values {
          WaitingPop(ir, Opens(ir, atoms), values.Keys, below, top, values.Keys);
          pending := below;
        } else if !top.processed && (Immediate(ir, atoms, top.id) || !Structural(ir[top.id].op)) {
          var value := if top.id >= |ir| || ir[top.id].sort != BoolSort then None
                       else if atoms(top.id).Some? then atoms(top.id) else Combine(ir[top.id].op, []);
          Settle(below, top, value);
          pending := below;
        } else if !top.processed {
          pending := Expand(ir, Opens(ir, atoms), values.Keys, below, top.id);
        } else {
          var vs := ChildValues(below, top.id);
          var value := ComputeCombine(ir[top.id].op, vs);
          Settle(below, top, value);
          pending := below;
        }
      }
      return values[root];
    }
  }
}
