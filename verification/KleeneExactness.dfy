/** Nothing is left unknown without need: where three-valued evaluation is exact. */
module KleeneExactness {
  import opened Basics
  import opened Terms
  import opened PartialBooleanEvaluation

  /** The known values, and `f` where there is none. */
  function Fill(vs: seq<Truth>, f: nat -> bool): (bs: seq<bool>)
    ensures Agrees(vs, bs)
  {
    seq(|vs|, i requires 0 <= i < |vs| => if vs[i].Some? then vs[i].value else f(i))
  }

  /** Some completion of the operands makes the connective true, another one false. */
  ghost predicate Open(op: Op, vs: seq<Truth>) {
    CanBe(op, vs, true) && CanBe(op, vs, false)
  }

  ghost predicate CanBe(op: Op, vs: seq<Truth>, b: bool) {
    exists bs: seq<bool> :: Agrees(vs, bs) && Apply(op, bs) == b
  }

  lemma {:induction false} Becomes(op: Op, vs: seq<Truth>, f: nat -> bool)
    ensures CanBe(op, vs, Apply(op, Fill(vs, f)))
  {
  }

  /** Three or more truth values are never pairwise distinct, which the scan does not use. */
  predicate LongDistinct(op: Op, n: nat) { op.Distinct? && n >= 3 }

  predicate Connective(op: Op) { op.BoolConst? || Structural(op) }

  lemma {:induction false} SomeUnknown(vs: seq<Truth>) returns (k: nat)
    requires None in vs
    ensures k < |vs| && vs[k] == None
  {
    k :| k < |vs| && vs[k] == None;
  }

  lemma {:induction false} JunctionOpen(op: Op, vs: seq<Truth>)
    requires (op.And? || op.Or?) && Combine(op, vs).None?
    ensures Open(op, vs)
  {
    var k := SomeUnknown(vs);
    var up, down := Fill(vs, _ => true), Fill(vs, _ => false);
    Becomes(op, vs, _ => true);
    Becomes(op, vs, _ => false);
    assert up[k] && !down[k];
    if op.And? {
      forall i | 0 <= i < |vs| ensures up[i] {
        assert vs[i] in vs;
      }
    } else {
      forall i | 0 <= i < |vs| ensures !down[i] {
        assert vs[i] in vs;
      }
    }
  }

  lemma {:induction false} ImplicationOpen(vs: seq<Truth>)
    requires |vs| >= 2 && Implication(vs).None?
    ensures Open(Implies, vs)
  {
    var k := SomeUnknown(vs);
    var last := |vs| - 1;
    var no, yes: nat -> bool := i => i != last, i => if i == k then k == last else i != last;
    Becomes(Implies, vs, no);
    Becomes(Implies, vs, yes);
    forall i: nat | i < |vs| ensures Fill(vs, no)[i] == (i != last) {
      assert !Decides(vs, i);
    }
    assert Fill(vs, yes)[k] == (k == last);
  }

  lemma {:induction false} XoredFlip(bs: seq<bool>, cs: seq<bool>, k: nat)
    requires |bs| == |cs| && k < |bs| && bs[k] != cs[k] && forall i | 0 <= i < |bs| && i != k :: bs[i] == cs[i]
    ensures Xored(bs) != Xored(cs)
  {
    var n := |bs| - 1;
    if k == n {
      assert bs[..n] == cs[..n];
    } else {
      XoredFlip(bs[..n], cs[..n], k);
    }
  }

  lemma {:induction false} ExclusiveOrOpen(vs: seq<Truth>)
    requires |vs| >= 2 && ExclusiveOr(vs).None?
    ensures Open(Xor, vs)
  {
    var k := SomeUnknown(vs);
    var f, g: nat -> bool := _ => false, i => i == k;
    Becomes(Xor, vs, f);
    Becomes(Xor, vs, g);
    XoredFlip(Fill(vs, f), Fill(vs, g), k);
  }

  lemma {:induction false} ChoiceOpen(vs: seq<Truth>)
    requires |vs| == 3 && Choice(vs).None?
    ensures Open(Ite, vs)
  {
    forall b: bool ensures CanBe(Ite, vs, b) {
      var f: nat -> bool := i => if i > 0 then b else vs[1].None? || vs[1] == Some(b);
      Becomes(Ite, vs, f);
      var g: nat -> bool := i => if i > 0 then b else false;
      Becomes(Ite, vs, g);
      assert Apply(Ite, Fill(vs, f)) == b || Apply(Ite, Fill(vs, g)) == b;
    }
  }

  /** The value that a chain's known operands share. */
  lemma {:induction false} ChainOpen(vs: seq<Truth>)
    requires |vs| >= 2 && Chain(vs, true).None?
    ensures Open(Eq, vs)
  {
    var k := SomeUnknown(vs);
    var known := if exists i: nat :: i < |vs| && vs[i].Some? then (var i: nat :| i < |vs| && vs[i].Some?; vs[i].value) else true;
    forall i: nat | i < |vs| && vs[i].Some? ensures vs[i].value == known {
      var j: nat :| j < |vs| && vs[j].Some? && vs[j].value == known;
      assert i < j ==> !Clashes(vs, j, i, true);
      assert j < i ==> !Clashes(vs, i, j, true);
    }
    var same, flip: nat -> bool := _ => known, i => if i == k then !known else known;
    Becomes(Eq, vs, same);
    Becomes(Eq, vs, flip);
    var other := if k == 0 then 1 else 0;
    var bs := Fill(vs, flip);
    assert !Apply(Eq, bs) by {
      if k > other {
        assert bs[k] != bs[other];
      } else {
        assert bs[other] != bs[k];
      }
    }
  }

  lemma {:induction false} PairOpen(vs: seq<Truth>)
    requires |vs| == 2 && Chain(vs, false).None?
    ensures Open(Op.Distinct, vs)
  {
    var k := SomeUnknown(vs);
    forall b: bool ensures CanBe(Op.Distinct, vs, b) {
      var f: nat -> bool :=
        i => if i == k then (if vs[1 - k].Some? then vs[1 - k].value != b else true) else !b;
      Becomes(Op.Distinct, vs, f);
      var bs := Fill(vs, f);
      assert (bs[1] != bs[0]) == b;
    }
  }

  /** What is unknown is not determined by the known operands. */
  lemma {:induction false} UnknownIsOpen(op: Op, vs: seq<Truth>)
    requires Connective(op) && Shaped(op, |vs|) && !LongDistinct(op, |vs|) && Combine(op, vs).None?
    ensures Open(op, vs)
  {
    hide Open;
    match op
    case Not =>
      Becomes(op, vs, _ => true);
      Becomes(op, vs, _ => false);
      assert Open(op, vs) by { NotOpen(vs); }
    case And => JunctionOpen(op, vs);
    case Or => JunctionOpen(op, vs);
    case Implies => ImplicationOpen(vs);
    case Xor => ExclusiveOrOpen(vs);
    case Ite => ChoiceOpen(vs);
    case Eq => ChainOpen(vs);
    case Distinct => PairOpen(vs);
  }

  lemma {:induction false} NotOpen(vs: seq<Truth>)
    requires |vs| == 1 && vs[0].None?
    ensures Open(Not, vs)
  {
    Becomes(Not, vs, _ => true);
    Becomes(Not, vs, _ => false);
  }

  /** An operator applied to the right number of operands is known exactly when it is determined. */
  lemma {:induction false} CombineExact(op: Op, vs: seq<Truth>, b: bool)
    requires Connective(op) && Shaped(op, |vs|) && !LongDistinct(op, |vs|)
    ensures Combine(op, vs) == Some(b) <==> forall bs: seq<bool> | Agrees(vs, bs) :: Apply(op, bs) == b
  {
    hide Combine, Apply;
    if Combine(op, vs).None? {
      UnknownIsOpen(op, vs);
    } else {
      forall bs: seq<bool> | Agrees(vs, bs) ensures Apply(op, bs) == Combine(op, vs).value {
        CombineSound(op, vs, bs);
      }
      assert Agrees(vs, Fill(vs, _ => true));
    }
  }

  /** A longer disequality is false whatever its operands; that is seen once two known ones are equal. */
  lemma {:induction false} LongDistinctExact(vs: seq<Truth>)
    requires |vs| >= 3
    ensures Combine(Op.Distinct, vs) == Some(false) <==> exists i: nat, j: nat :: j < i < |vs| && vs[i].Some? && vs[i] == vs[j]
    ensures Combine(Op.Distinct, vs) != Some(true)
    ensures Combine(Op.Distinct, vs).None? ==> None in vs
    ensures forall bs: seq<bool> | |bs| == |vs| :: !Apply(Op.Distinct, bs)
  {
    if Chain(vs, false) == Some(false) {
      var i: nat, j: nat :| j < i < |vs| && Clashes(vs, i, j, false);
      assert j < i < |vs| && vs[i].Some? && vs[i] == vs[j];
    }
    if i: nat, j: nat :| j < i < |vs| && vs[i].Some? && vs[i] == vs[j] {
      assert Clashes(vs, i, j, false);
    }
    if None !in vs {
      AllKnown(vs);
      var x: bool, y: bool, z: bool := vs[0].value, vs[1].value, vs[2].value;
      assert vs[0] == Some(x) && vs[1] == Some(y) && vs[2] == Some(z);
      assert Clashes(vs, 1, 0, false) || Clashes(vs, 2, 0, false) || Clashes(vs, 2, 1, false);
    }
    forall bs: seq<bool> | |bs| == |vs| ensures !Apply(Op.Distinct, bs) {
      assert bs[1] == bs[0] || bs[2] == bs[0] || bs[2] == bs[1];
    }
  }

  /** Nothing is known of a connective with the wrong number of operands. */
  lemma {:induction false} MisshapenUnknown(op: Op, vs: seq<Truth>)
    requires !Shaped(op, |vs|)
    ensures Combine(op, vs).None?
  {
  }

  /** The callback comes first; a connective is known exactly when what is known of its operands determines it. */
  lemma {:induction false} KleeneExact(ir: Dag, atoms: Atoms, id: nat, b: bool)
    requires Ordered(ir) && id < |ir| && ir[id].sort == BoolSort
    ensures atoms(id).Some? ==> Kleene(ir, atoms, id) == atoms(id)
    ensures atoms(id).None? && Connective(ir[id].op) && Shaped(ir[id].op, |ir[id].children|) && !LongDistinct(ir[id].op, |ir[id].children|) ==>
              (Kleene(ir, atoms, id) == Some(b) <==>
                forall bs: seq<bool> | Agrees(KleeneAll(ir, atoms, id, ir[id].children), bs) :: Apply(ir[id].op, bs) == b)
  {
    hide Combine, Apply;
    var c := ir[id].children;
    if Connective(ir[id].op) && Shaped(ir[id].op, |c|) && !LongDistinct(ir[id].op, |c|) {
      CombineExact(ir[id].op, KleeneAll(ir, atoms, id, c), b);
    }
  }

  /** The opaque terms that a term's meaning depends on. */
  ghost function Leaves(ir: Dag, id: nat): set<nat>
    requires Ordered(ir)
    decreases id, 1
  {
    if id < |ir| && Interpreted(ir, id) then AllLeaves(ir, id, ir[id].children) else {id}
  }

  ghost function AllLeaves(ir: Dag, bound: nat, ids: seq<nat>): set<nat>
    requires Ordered(ir) && forall k | 0 <= k < |ids| :: ids[k] < bound
    decreases bound, 0, |ids|
  {
    if ids == [] then {} else AllLeaves(ir, bound, ids[..|ids| - 1]) + Leaves(ir, ids[|ids| - 1])
  }

  /** Every opaque term is used once, and no disequality has more than two operands. */
  ghost predicate ReadOnce(ir: Dag, id: nat)
    requires Ordered(ir)
    decreases id, 1
  {
    id < |ir| && Interpreted(ir, id) ==>
      !LongDistinct(ir[id].op, |ir[id].children|) && AllReadOnce(ir, id, ir[id].children)
  }

  ghost predicate AllReadOnce(ir: Dag, bound: nat, ids: seq<nat>)
    requires Ordered(ir) && forall k | 0 <= k < |ids| :: ids[k] < bound
    decreases bound, 0, |ids|
  {
    ids != [] ==>
      var n := |ids| - 1;
      AllReadOnce(ir, bound, ids[..n]) && ReadOnce(ir, ids[n]) && AllLeaves(ir, bound, ids[..n]) !! Leaves(ir, ids[n])
  }

  /** Meanings depend on the leaves only. */
  lemma {:induction false} MeaningLocal(ir: Dag, o: nat -> bool, p: nat -> bool, id: nat)
    requires Ordered(ir) && forall x | x in Leaves(ir, id) :: o(x) == p(x)
    ensures Meaning(ir, o, id) == Meaning(ir, p, id)
    decreases id, 1
  {
    if id < |ir| && Interpreted(ir, id) {
      MeaningsLocal(ir, o, p, id, ir[id].children);
    }
  }

  lemma {:induction false} MeaningsLocal(ir: Dag, o: nat -> bool, p: nat -> bool, bound: nat, ids: seq<nat>)
    requires Ordered(ir) && forall k | 0 <= k < |ids| :: ids[k] < bound
    requires forall x | x in AllLeaves(ir, bound, ids) :: o(x) == p(x)
    ensures MeaningAll(ir, o, bound, ids) == MeaningAll(ir, p, bound, ids)
    decreases bound, 0, |ids|
  {
    if ids != [] {
      MeaningsLocal(ir, o, p, bound, ids[..|ids| - 1]);
      MeaningLocal(ir, o, p, ids[|ids| - 1]);
    }
  }

  /** The callback answers for opaque terms alone. */
  ghost predicate AtomsOnly(ir: Dag, atoms: Atoms)
    requires Ordered(ir)
  {
    forall id: nat | id < |ir| && atoms(id).Some? :: !Interpreted(ir, id)
  }

  ghost predicate Respects(atoms: Atoms, o: nat -> bool) {
    forall id: nat | atoms(id).Some? :: o(id) == atoms(id).value
  }

  lemma {:induction false} RespectsCompletes(ir: Dag, atoms: Atoms, o: nat -> bool)
    requires Ordered(ir) && AtomsOnly(ir, atoms) && Respects(atoms, o)
    ensures Completes(ir, atoms, o)
  {
  }

  predicate Admits(v: Truth, b: bool) { v.None? || v.value == b }

  /** Whatever evaluation leaves possible for a read-once term, some completion makes it so. */
  lemma {:induction false} Attained(ir: Dag, atoms: Atoms, id: nat, b: bool) returns (o: nat -> bool)
    requires Ordered(ir) && WellSorted(ir) && AtomsOnly(ir, atoms) && id < |ir| && ir[id].sort == BoolSort
    requires ReadOnce(ir, id) && Admits(Kleene(ir, atoms, id), b)
    ensures Respects(atoms, o) && Meaning(ir, o, id) == b
    decreases id, 1
  {
    hide Combine;
    if Interpreted(ir, id) && ir[id].op.BoolConst? {
      o := (x: nat) => if atoms(x).Some? then atoms(x).value else false;
      assert Combine(ir[id].op, KleeneAll(ir, atoms, id, ir[id].children)) == Some(ir[id].op.truth) by { ConstantKnown(ir[id].op, KleeneAll(ir, atoms, id, ir[id].children)); }
    } else if Interpreted(ir, id) {
      hide Apply;
      var op, c := ir[id].op, ir[id].children;
      var vs := KleeneAll(ir, atoms, id, c);
      var bs := Determined(op, vs, b);
      o := AllAttained(ir, atoms, id, c, bs);
    } else {
      o := (x: nat) => if atoms(x).Some? then atoms(x).value else b;
    }
  }

  lemma {:induction false} ConstantKnown(op: Op, vs: seq<Truth>)
    requires op.BoolConst?
    ensures Combine(op, vs) == Some(op.truth)
  {
  }

  lemma {:induction false} Determined(op: Op, vs: seq<Truth>, b: bool) returns (bs: seq<bool>)
    requires Connective(op) && Shaped(op, |vs|) && !LongDistinct(op, |vs|) && Admits(Combine(op, vs), b)
    ensures Agrees(vs, bs) && Apply(op, bs) == b
  {
    hide Combine, Apply, Shaped;
    if Combine(op, vs).None? {
      UnknownIsOpen(op, vs);
      bs :| Agrees(vs, bs) && Apply(op, bs) == b;
    } else {
      bs := Fill(vs, _ => true);
      CombineSound(op, vs, bs);
    }
  }

  lemma {:induction false} AllAttained(ir: Dag, atoms: Atoms, bound: nat, ids: seq<nat>, bs: seq<bool>) returns (o: nat -> bool)
    requires Ordered(ir) && WellSorted(ir) && AtomsOnly(ir, atoms) && bound <= |ir| && forall k | 0 <= k < |ids| :: ids[k] < bound
    requires forall k | 0 <= k < |ids| :: ir[ids[k]].sort == BoolSort
    requires AllReadOnce(ir, bound, ids) && |bs| == |ids| && Agrees(KleeneAll(ir, atoms, bound, ids), bs)
    ensures Respects(atoms, o) && MeaningAll(ir, o, bound, ids) == bs
    decreases bound, 0, |ids|
  {
    hide Meaning, Leaves, Kleene, WellSorted, ReadOnce, AtomsOnly;
    if ids == [] {
      o := (x: nat) => if atoms(x).Some? then atoms(x).value else false;
    } else {
      var n := |ids| - 1;
      var front := AllAttained(ir, atoms, bound, ids[..n], bs[..n]);
      var last := Attained(ir, atoms, ids[n], bs[n]);
      var seen := AllLeaves(ir, bound, ids[..n]);
      o := (x: nat) => if x in seen then front(x) else last(x);
      MeaningsLocal(ir, o, front, bound, ids[..n]);
      MeaningLocal(ir, o, last, ids[n]);
    }
  }

  /** On read-once terms three-valued evaluation is exact: a value is known exactly when every
      completion of the callback gives it. */
  lemma {:induction false} ReadOnceExact(ir: Dag, atoms: Atoms, id: nat, b: bool)
    requires Ordered(ir) && WellSorted(ir) && AtomsOnly(ir, atoms) && id < |ir| && ir[id].sort == BoolSort && ReadOnce(ir, id)
    ensures Kleene(ir, atoms, id) == Some(b) <==> forall o: nat -> bool | Completes(ir, atoms, o) :: Meaning(ir, o, id) == b
  {
    hide Kleene, Meaning, ReadOnce, WellSorted;
    if Kleene(ir, atoms, id) == Some(b) {
      forall o: nat -> bool | Completes(ir, atoms, o) ensures Meaning(ir, o, id) == b {
        KleeneSound(ir, atoms, o, id);
      }
    } else {
      var o := Attained(ir, atoms, id, !b);
      RespectsCompletes(ir, atoms, o);
    }
  }
}
