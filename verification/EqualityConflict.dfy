/** Certifying an equality conflict: by transitivity alone when that is enough, and otherwise
    by reconstructing a congruence refutation. */
module EqualityConflict {
  import opened Basics
  import opened Terms
  import opened Congruence
  import opened EqualityGraph
  import opened TransitivityConflict
  import EufProver

  /** An asserted binary equality. */
  predicate IsLeaf(ir: Dag, l: Literal, posAssert: set<nat>)
    requires l.atom < |ir|
  {
    ir[l.atom].op.Eq? && |ir[l.atom].children| == 2 && l.positive && l.atom in posAssert
  }

  /** A negated equality or an asserted binary distinct. */
  predicate IsConclusion(ir: Dag, l: Literal, posAssert: set<nat>, negAssert: set<nat>)
    requires l.atom < |ir|
  {
    && |ir[l.atom].children| == 2
    && if ir[l.atom].op.Eq? then !l.positive && l.atom in negAssert
       else ir[l.atom].op.Distinct? && l.positive && l.atom in posAssert
  }

  predicate Classified(ir: Dag, lits: seq<Literal>, posAssert: set<nat>, negAssert: set<nat>)
    requires InDag(ir, lits)
  {
    forall i | 0 <= i < |lits| :: IsLeaf(ir, lits[i], posAssert) || IsConclusion(ir, lits[i], posAssert, negAssert)
  }

  /** The asserted equalities, in order. */
  function Leaves(ir: Dag, lits: seq<Literal>): seq<Equality>
    requires InDag(ir, lits)
  {
    if lits == [] then [] else
    var front, last := Leaves(ir, lits[..|lits| - 1]), lits[|lits| - 1];
    if AssertsEquality(ir, last) then front + [Sides(ir, last)] else front
  }

  lemma {:induction false} LeavesNext(ir: Dag, lits: seq<Literal>, i: nat)
    requires InDag(ir, lits) && i < |lits|
    ensures Leaves(ir, lits[..i + 1]) ==
            if AssertsEquality(ir, lits[i]) then Leaves(ir, lits[..i]) + [Sides(ir, lits[i])] else Leaves(ir, lits[..i])
  {
    assert lits[..i + 1][..i] == lits[..i];
  }

  /** Sort the literals into leaf equalities and conclusions. */
  method Classify(ir: Dag, lits: seq<Literal>, posAssert: set<nat>, negAssert: set<nat>)
    returns (ok: bool, leaves: seq<Equality>, goal: Equality, conclusions: nat)
    requires InDag(ir, lits)
    ensures ok <==> Classified(ir, lits, posAssert, negAssert)
    ensures ok ==> leaves == Leaves(ir, lits) && conclusions == |Differences(ir, lits)|
    ensures ok && conclusions > 0 ==> goal == Differences(ir, lits)[conclusions - 1]
  {
    hide Leaves, Differences;
    leaves, goal, conclusions := [], Equality(0, 0), 0;
    NoLiterals(ir, lits);
    for i: nat := 0 to |lits|
      invariant Classified(ir, lits[..i], posAssert, negAssert)
      invariant leaves == Leaves(ir, lits[..i]) && conclusions == |Differences(ir, lits[..i])|
      invariant conclusions > 0 ==> goal == Differences(ir, lits[..i])[conclusions - 1]
    {
      LeavesNext(ir, lits, i);
      Next(ir, lits, i);
      if IsLeaf(ir, lits[i], posAssert) {
        leaves := leaves + [Sides(ir, lits[i])];
      } else if IsConclusion(ir, lits[i], posAssert, negAssert) {
        goal, conclusions := Sides(ir, lits[i]), conclusions + 1;
      } else {
        return false, leaves, goal, conclusions;
      }
    }
    assert lits[..|lits|] == lits;
    return true, leaves, goal, conclusions;
  }

  lemma {:induction false} NoLiterals(ir: Dag, lits: seq<Literal>)
    requires InDag(ir, lits)
    ensures Leaves(ir, lits[..0]) == [] && Differences(ir, lits[..0]) == []
  {
  }

  /** Every asserted equality is an edge of the graph that the transitivity check builds. */
  lemma {:induction false} LeafIsEdge(ir: Dag, lits: seq<Literal>, e: Equality)
    requires InDag(ir, lits) && e in Leaves(ir, lits)
    ensures Edge(Known(ir, lits), e.left, e.right) && Edge(Known(ir, lits), e.right, e.left)
  {
    var front, last := lits[..|lits| - 1], lits[|lits| - 1];
    LinkEdges(Known(ir, front), Sides(ir, last).left, Sides(ir, last).right);
    if e in Leaves(ir, front) {
      LeafIsEdge(ir, front, e);
    }
  }

  lemma {:induction false} LastLeafListed(leaves: seq<Equality>, k: Equality)
    requires EufProver.LastLeaf(leaves, k).Some?
    ensures var e := EufProver.LastLeaf(leaves, k).value; e in leaves && EufProver.Key(e.left, e.right) == k
  {
    var n := |leaves| - 1;
    var e := leaves[n];
    if EufProver.Key(e.left, e.right) != k {
      LastLeafListed(leaves[..n], k);
      assert leaves == leaves[..n] + [e];
    }
  }

  /** When transitivity alone was refused, the refuted pair is no leaf in either orientation. */
  lemma {:induction false} PairIsNoLeaf(ir: Dag, lits: seq<Literal>)
    requires InDag(ir, lits) && |Differences(ir, lits)| == 1 && !Conflict(ir, lits)
    ensures var d := Differences(ir, lits)[0];
            d.left == d.right || EufProver.LastLeaf(Leaves(ir, lits), EufProver.Key(d.left, d.right)).None?
  {
    var d := Differences(ir, lits)[0];
    var k := EufProver.Key(d.left, d.right);
    if EufProver.LastLeaf(Leaves(ir, lits), k).Some? {
      var e := EufProver.LastLeaf(Leaves(ir, lits), k).value;
      LastLeafListed(Leaves(ir, lits), k);
      LeafIsEdge(ir, lits, e);
      EufProver.KeySpeaks(e.left, e.right, d.left, d.right);
      ConnectedEdge(Known(ir, lits), d.left, d.right);
    }
  }

  lemma {:induction false} ClassifiedUsable(ir: Dag, lits: seq<Literal>, posAssert: set<nat>, negAssert: set<nat>)
    requires InDag(ir, lits) && Classified(ir, lits, posAssert, negAssert)
    ensures AllUsable(ir, lits, posAssert, negAssert)
  {
  }

  lemma {:induction false} SidesInDag(ir: Dag, lits: seq<Literal>, posAssert: set<nat>, negAssert: set<nat>)
    requires Ordered(ir) && InDag(ir, lits) && AllUsable(ir, lits, posAssert, negAssert)
    ensures forall e | e in Leaves(ir, lits) || e in Differences(ir, lits) :: e.left < |ir| && e.right < |ir|
  {
    if lits != [] {
      var front, last := lits[..|lits| - 1], lits[|lits| - 1];
      assert forall i | 0 <= i < |front| :: front[i] == lits[i];
      SidesInDag(ir, front, posAssert, negAssert);
      assert Usable(ir, last, posAssert, negAssert);
    }
  }

  /** What is built for a conflict: nothing, the transitivity rule over its literals, or a
      congruence refutation. */
  datatype Built = Skeleton | Transitive | Congruent(leaves: seq<Equality>, goal: Equality, proof: EufProver.Proof)

  /** A congruence refutation is justified, closes propositionally, and speaks of these literals. */
  ghost predicate Refutes(ir: Dag, lits: seq<Literal>, b: Built)
    requires InDag(ir, lits) && b.Congruent?
  {
    && b.leaves == Leaves(ir, lits) && Differences(ir, lits) == [b.goal]
    && EufProver.Entails(ir, b.leaves, b.goal) && EufProver.Closed(b.proof)
    && exists premises :: EufProver.Refutation(ir, b.leaves, b.goal, b.proof, premises)
  }

  /** The only disequality is between a term and itself. */
  ghost predicate SelfDifference(ir: Dag, lits: seq<Literal>)
    requires InDag(ir, lits)
  {
    |Differences(ir, lits)| == 1 && Differences(ir, lits)[0].left == Differences(ir, lits)[0].right
  }

  /** The equalities entail the one disequality's opposite, over at most half of all terms. */
  ghost predicate Refutable(ir: Dag, lits: seq<Literal>)
    requires InDag(ir, lits)
  {
    && |Differences(ir, lits)| == 1
    && EufProver.Entails(ir, Leaves(ir, lits), Differences(ir, lits)[0])
    && EufProver.Roomy(ir, Leaves(ir, lits), Differences(ir, lits)[0])
  }

  /** Certify a conflict.  Transitivity is used exactly when it suffices; every congruence
      refutation that is built closes. */
  method Build(ir: Dag, lits: seq<Literal>, posAssert: set<nat>, negAssert: set<nat>) returns (b: Built)
    requires Ordered(ir) && InDag(ir, lits)
    ensures b.Transitive? <==> AllUsable(ir, lits, posAssert, negAssert) && Conflict(ir, lits)
    ensures b.Congruent? ==> Classified(ir, lits, posAssert, negAssert) && Refutes(ir, lits, b)
    ensures Classified(ir, lits, posAssert, negAssert) && SelfDifference(ir, lits) ==> b.Congruent?
    ensures Classified(ir, lits, posAssert, negAssert) && Refutable(ir, lits) ==> !b.Skeleton?
  {
    hide Leaves, Differences, Known, Classified;
    var transitive := TransitivityOk(ir, lits, posAssert, negAssert);
    if transitive {
      return Transitive;
    }
    var fits, leaves, goal, conclusions := Classify(ir, lits, posAssert, negAssert);
    if !fits || conclusions != 1 {
      return Skeleton;
    }
    assert Differences(ir, lits) == [goal];
    ClassifiedUsable(ir, lits, posAssert, negAssert);
    SidesInDag(ir, lits, posAssert, negAssert);
    PairIsNoLeaf(ir, lits);
    var ok, proof;
    ghost var premises;
    ok, proof, premises := EufProver.ProofEufCongruence(ir, leaves, goal.left, goal.right);
    if !ok {
      return Skeleton;
    }
    return Congruent(leaves, goal, proof);
  }

  /** An interpretation of the symbols under which each literal holds. */
  ghost predicate HoldsIn<D(!new)>(ir: Dag, lits: seq<Literal>, m: Interpretation<D>)
    requires Ordered(ir) && InDag(ir, lits)
  {
    Satisfies(ir, lits, (x: nat) => Evaluate(ir, m, x))
  }

  lemma {:induction false} LeavesHold<D(!new)>(ir: Dag, lits: seq<Literal>, m: Interpretation<D>)
    requires Ordered(ir) && InDag(ir, lits) && HoldsIn(ir, lits, m)
    ensures forall e | e in Leaves(ir, lits) :: Evaluate(ir, m, e.left) == Evaluate(ir, m, e.right)
    ensures forall e | e in Differences(ir, lits) :: Evaluate(ir, m, e.left) != Evaluate(ir, m, e.right)
  {
    if lits != [] {
      var front, last := lits[..|lits| - 1], lits[|lits| - 1];
      assert forall i | 0 <= i < |front| :: front[i] == lits[i];
      LeavesHold(ir, front, m);
      assert last == lits[|lits| - 1];
    }
  }

  /** Whatever is built, no interpretation of the function symbols satisfies the literals. */
  lemma {:induction false} BuiltHasNoModel<D(!new)>(ir: Dag, lits: seq<Literal>, b: Built, m: Interpretation<D>)
    requires Ordered(ir) && InDag(ir, lits)
    requires (b.Transitive? && Conflict(ir, lits)) || (b.Congruent? && Refutes(ir, lits, b))
    ensures !HoldsIn(ir, lits, m)
  {
    if HoldsIn(ir, lits, m) {
      if b.Transitive? {
        ConflictHasNoModel(ir, lits, (x: nat) => Evaluate(ir, m, x));
      } else {
        LeavesHold(ir, lits, m);
        EufProver.NoCommonModel(ir, b.leaves, b.goal.left, b.goal.right, m);
      }
    }
  }
}
