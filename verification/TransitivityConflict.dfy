/** Recognising a conflict by transitivity alone: asserted equalities that connect the two
    sides of the one asserted disequality. */
module TransitivityConflict {
  import opened Terms
  import opened Congruence
  import opened UnionFind
  import opened EqualityGraph
  import opened ClosureHistory
  import opened CongruenceClosure

  datatype Literal = Literal(atom: nat, positive: bool)

  predicate InDag(ir: Dag, lits: seq<Literal>) {
    forall i | 0 <= i < |lits| :: lits[i].atom < |ir|
  }

  /** A binary equality or disequality that is asserted with the literal's sign. */
  predicate Usable(ir: Dag, l: Literal, posAssert: set<nat>, negAssert: set<nat>)
    requires l.atom < |ir|
  {
    && (if l.positive then l.atom in posAssert else l.atom in negAssert)
    && (ir[l.atom].op.Eq? || ir[l.atom].op.Distinct?) && |ir[l.atom].children| == 2
  }

  predicate AllUsable(ir: Dag, lits: seq<Literal>, posAssert: set<nat>, negAssert: set<nat>)
    requires InDag(ir, lits)
  {
    forall i | 0 <= i < |lits| :: Usable(ir, lits[i], posAssert, negAssert)
  }

  /** A positive equality or a negated binary disequality. */
  predicate AssertsEquality(ir: Dag, l: Literal)
    requires l.atom < |ir|
  {
    if ir[l.atom].op.Eq? then l.positive else !l.positive
  }

  function Sides(ir: Dag, l: Literal): Equality
    requires l.atom < |ir|
  {
    var c := ir[l.atom].children;
    if |c| == 2 then Equality(c[0], c[1]) else Equality(0, 0)
  }

  /** The graph of the asserted equalities. */
  ghost function Known(ir: Dag, lits: seq<Literal>): Graph
    requires InDag(ir, lits)
  {
    if lits == [] then map[] else
    var front, last := Known(ir, lits[..|lits| - 1]), lits[|lits| - 1];
    if AssertsEquality(ir, last) then Link(front, Sides(ir, last).left, Sides(ir, last).right) else front
  }

  /** The asserted disequalities. */
  ghost function Differences(ir: Dag, lits: seq<Literal>): seq<Equality>
    requires InDag(ir, lits)
  {
    if lits == [] then [] else
    var front, last := Differences(ir, lits[..|lits| - 1]), lits[|lits| - 1];
    if AssertsEquality(ir, last) then front else front + [Sides(ir, last)]
  }

  lemma {:induction false} Next(ir: Dag, lits: seq<Literal>, i: nat)
    requires InDag(ir, lits) && i < |lits|
    ensures Known(ir, lits[..i + 1]) ==
            if AssertsEquality(ir, lits[i]) then Link(Known(ir, lits[..i]), Sides(ir, lits[i]).left, Sides(ir, lits[i]).right) else Known(ir, lits[..i])
    ensures Differences(ir, lits[..i + 1]) ==
            if AssertsEquality(ir, lits[i]) then Differences(ir, lits[..i]) else Differences(ir, lits[..i]) + [Sides(ir, lits[i])]
  {
    assert lits[..i + 1][..i] == lits[..i];
  }

  lemma {:induction false} DifferencesGrow(ir: Dag, lits: seq<Literal>, i: nat)
    requires InDag(ir, lits) && i <= |lits|
    ensures |Differences(ir, lits[..i])| <= |Differences(ir, lits)|
  {
    if i < |lits| {
      var front := lits[..|lits| - 1];
      assert front[..i] == lits[..i];
      DifferencesGrow(ir, front, i);
    } else {
      assert lits[..i] == lits;
    }
  }

  /** A value for every term under which each literal holds. */
  ghost predicate Satisfies<D(!new)>(ir: Dag, lits: seq<Literal>, value: nat -> D)
    requires InDag(ir, lits)
  {
    forall i | 0 <= i < |lits| ::
      AssertsEquality(ir, lits[i]) <==> value(Sides(ir, lits[i]).left) == value(Sides(ir, lits[i]).right)
  }

  lemma {:induction false} EdgesEqual<D(!new)>(ir: Dag, lits: seq<Literal>, value: nat -> D)
    requires InDag(ir, lits) && Satisfies(ir, lits, value)
    ensures forall x: nat, y: nat | Edge(Known(ir, lits), x, y) :: value(x) == value(y)
  {
    if lits != [] {
      var front, last := lits[..|lits| - 1], lits[|lits| - 1];
      assert forall i | 0 <= i < |front| :: front[i] == lits[i];
      EdgesEqual(ir, front, value);
      LinkEdges(Known(ir, front), Sides(ir, last).left, Sides(ir, last).right);
    }
  }

  lemma {:induction false} PathEqual<D(!new)>(g: Graph, p: Path, value: nat -> D, k: nat)
    requires (forall i: nat | i + 1 < |p| :: Edge(g, p[i], p[i + 1])) && k < |p|
    requires forall x: nat, y: nat | Edge(g, x, y) :: value(x) == value(y)
    ensures value(p[0]) == value(p[k])
  {
    if k > 0 {
      PathEqual(g, p, value, k - 1);
      assert Edge(g, p[k - 1], p[k - 1 + 1]);
    }
  }

  lemma {:induction false} DifferenceFrom(ir: Dag, lits: seq<Literal>, d: Equality)
    requires InDag(ir, lits) && d in Differences(ir, lits)
    ensures exists i :: 0 <= i < |lits| && !AssertsEquality(ir, lits[i]) && Sides(ir, lits[i]) == d
  {
    var front, last := lits[..|lits| - 1], lits[|lits| - 1];
    if d in Differences(ir, front) {
      DifferenceFrom(ir, front, d);
      var i :| 0 <= i < |front| && !AssertsEquality(ir, front[i]) && Sides(ir, front[i]) == d;
      assert lits[i] == front[i];
    } else {
      assert lits[|lits| - 1] == last && Sides(ir, last) == d;
    }
  }

  /** What acceptance means: the only disequality is between two different, connected terms. */
  ghost predicate Conflict(ir: Dag, lits: seq<Literal>)
    requires InDag(ir, lits)
  {
    |Differences(ir, lits)| == 1 &&
    var d := Differences(ir, lits)[0];
    d.left != d.right && Connected(Known(ir, lits), d.left, d.right)
  }

  /** No values of the terms satisfy the literals of a conflict. */
  lemma {:induction false} ConflictHasNoModel<D(!new)>(ir: Dag, lits: seq<Literal>, value: nat -> D)
    requires InDag(ir, lits) && Conflict(ir, lits)
    ensures !Satisfies(ir, lits, value)
  {
    if Satisfies(ir, lits, value) {
      var d := Differences(ir, lits)[0];
      DifferenceFrom(ir, lits, d);
      EdgesEqual(ir, lits, value);
      var p: Path :| IsPath(Known(ir, lits), p, d.left, d.right);
      PathEqual(Known(ir, lits), p, value, |p| - 1);
    }
  }

  /** The class representative, a term not met before being its own. */
  method FindOrAdd(forest: Forest, x: nat, ghost g: Graph) returns (r: nat)
    requires forest.Valid() && Mirrors(forest.root, g)
    modifies forest
    ensures forest.Valid() && Mirrors(forest.root, g) && x in forest.root && r == forest.root[x]
    ensures forest.root == if x in old(forest.root) then old(forest.root) else old(forest.root)[x := x]
  {
    hide Mirrors, IsForest, Linked;
    forest.SameKeys();
    if x !in forest.parent {
      forest.RootsKnown();
      Alone(forest.root, g, x);
      forest.Add(x);
      return x;
    }
    r := forest.Find(x);
  }

  /** A new class of one changes nothing. */
  lemma {:induction false} Alone(before: Roots, g: Graph, x: nat)
    requires Mirrors(before, g) && x !in before
    requires forall y | y in before :: before[y] in before
    ensures Mirrors(before[x := x], g)
  {
    var after := before[x := x];
    forall a: nat, b: nat | Edge(g, a, b) ensures Same(after, a, b) {
      assert Same(before, a, b);
    }
    forall a: nat, b: nat | Same(after, a, b) ensures Connected(g, a, b) {
      if a == x || b == x {
        ConnectedSelf(g, x);
      } else {
        assert Same(before, a, b);
      }
    }
  }

  /** Adding an asserted equality as an edge and merging its sides. */
  method Merge(forest: Forest, a: nat, b: nat, ghost g: Graph)
    requires forest.Valid() && Mirrors(forest.root, g)
    modifies forest
    ensures forest.Valid() && Mirrors(forest.root, Link(g, a, b))
  {
    hide Mirrors, IsForest, Linked, Link, Rerooted;
    var rb := FindOrAdd(forest, b, g);
    var ra := FindOrAdd(forest, a, g);
    forest.SameKeys();
    Merged(forest.root, g, a, b);
    forest.Union(a, b);
  }

  lemma {:induction false} Merged(root: Roots, g: Graph, a: nat, b: nat)
    requires Mirrors(root, g) && a in root && b in root
    ensures Mirrors(Rerooted(root, root[a], root[b]), Link(g, a, b))
  {
    hide Link;
    var next, h := Rerooted(root, root[a], root[b]), Link(g, a, b);
    LinkEdges(g, a, b);
    MergeMirrors(root, g, h, a, b);
    forall x: nat, y: nat | Edge(h, x, y) ensures Same(next, x, y) {
      assert Edge(g, x, y) ==> Same(root, x, y);
    }
  }

  /** Exactly one asserted disequality, between different terms that the asserted equalities connect. */
  method TransitivityOk(ir: Dag, lits: seq<Literal>, posAssert: set<nat>, negAssert: set<nat>) returns (ok: bool)
    requires InDag(ir, lits)
    ensures ok <==> AllUsable(ir, lits, posAssert, negAssert) && Conflict(ir, lits)
  {
    hide Mirrors, Known, Differences;
    var forest := new Forest();
    Nothing(ir, lits);
    var left, right, negatives := 0, 0, 0;
    for i: nat := 0 to |lits|
      invariant forest.Valid() && fresh(forest) && Mirrors(forest.root, Known(ir, lits[..i]))
      invariant AllUsable(ir, lits[..i], posAssert, negAssert)
      invariant negatives == |Differences(ir, lits[..i])| <= 1
      invariant negatives == 1 ==> Differences(ir, lits[..i])[0] == Equality(left, right)
    {
      Next(ir, lits, i);
      if !Usable(ir, lits[i], posAssert, negAssert) {
        return false;
      }
      var sides := Sides(ir, lits[i]);
      if AssertsEquality(ir, lits[i]) {
        Merge(forest, sides.left, sides.right, Known(ir, lits[..i]));
      } else {
        negatives := negatives + 1;
        if negatives > 1 {
          DifferencesGrow(ir, lits, i + 1);
          return false;
        }
        left, right := sides.left, sides.right;
      }
    }
    assert lits[..|lits|] == lits;
    if negatives != 1 || left == right {
      return false;
    }
    var l := FindOrAdd(forest, left, Known(ir, lits));
    var r := FindOrAdd(forest, right, Known(ir, lits));
    ComponentsAreClasses(Known(ir, lits), forest.root, left, right);
    return l == r;
  }

  lemma {:induction false} Nothing(ir: Dag, lits: seq<Literal>)
    requires InDag(ir, lits)
    ensures Mirrors(map[], Known(ir, lits[..0])) && Differences(ir, lits[..0]) == []
  {
  }
}
