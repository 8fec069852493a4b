/** The closure's classes as an interpretation: what it has not merged, no congruence has to relate. */
module ClosureModel {
  import opened Terms
  import opened Congruence
  import opened EqualityGraph
  import opened UnionFind
  import opened ClosureHistory
  import opened CongruenceClosure

  /** A class, or a term that the classes say nothing of. */
  datatype Value = Class(root: nat) | Application(symbol: string, arguments: seq<Value>) | Atom(id: nat)

  /** The application has the symbol, and its arguments these values. */
  ghost predicate Witnesses(ir: Dag, root: Roots, symbol: string, arguments: seq<Value>, z: nat) {
    && z in root && IsApplication(ir, z) && ir[z].op == UFApply(symbol) && |arguments| == |ir[z].children|
    && forall k | 0 <= k < |arguments| :: ir[z].children[k] in root && arguments[k] == Class(root[ir[z].children[k]])
  }

  ghost function Applied(ir: Dag, root: Roots, symbol: string, arguments: seq<Value>): Value {
    if exists z: nat :: Witnesses(ir, root, symbol, arguments, z)
    then (var z: nat :| Witnesses(ir, root, symbol, arguments, z); Class(root[z]))
    else Application(symbol, arguments)
  }

  ghost function Quotient(ir: Dag, root: Roots): Interpretation<Value> {
    Interpretation((symbol: string, arguments: seq<Value>) => Applied(ir, root, symbol, arguments),
                   (x: nat) => if x in root then Class(root[x]) else Atom(x))
  }

  ghost predicate ClosedClasses(ir: Dag, root: Roots) {
    && ChildrenClosed(ir, root.Keys) && (forall x | x in root :: x < |ir|)
    && forall x: nat, y: nat | x in root && y in root :: PairClosed(ir, root, x, y)
  }

  /** A collected term denotes its class. */
  lemma {:induction false} DenotesClass(ir: Dag, root: Roots, x: nat)
    requires Ordered(ir) && ClosedClasses(ir, root) && x in root
    ensures Evaluate(ir, Quotient(ir, root), x) == Class(root[x])
    decreases x
  {
    var m := Quotient(ir, root);
    if IsApplication(ir, x) {
      var c := ir[x].children;
      var arguments := EvaluateAll(ir, m, x, c);
      forall k | 0 <= k < |c| ensures c[k] in root && arguments[k] == Class(root[c[k]]) {
        DenotesClass(ir, root, c[k]);
      }
      var symbol := ir[x].op.symbol;
      assert Witnesses(ir, root, symbol, arguments, x);
      var z: nat :| Witnesses(ir, root, symbol, arguments, z) && Applied(ir, root, symbol, arguments) == Class(root[z]);
      SameWitness(ir, root, symbol, arguments, x, z);
    }
  }

  lemma {:induction false} SameWitness(ir: Dag, root: Roots, symbol: string, arguments: seq<Value>, x: nat, z: nat)
    requires ClosedClasses(ir, root) && Witnesses(ir, root, symbol, arguments, x) && Witnesses(ir, root, symbol, arguments, z)
    ensures root[x] == root[z]
  {
    assert PairClosed(ir, root, x, z);
    forall k | 0 <= k < |ir[x].children| ensures Same(root, ir[x].children[k], ir[z].children[k]) {
      assert arguments[k] == Class(root[ir[x].children[k]]);
    }
  }

  /** Collected terms that every congruence with the leaves relates have been merged. */
  lemma {:induction false} EntailedIsMerged(ir: Dag, leaves: set<Equality>, root: Roots, x: nat, y: nat)
    requires Ordered(ir) && ClosedClasses(ir, root) && x in root && y in root
    requires forall e | e in leaves :: Same(root, e.left, e.right)
    requires forall rel: Relation | IsCongruence(ir, rel) && Includes(rel, leaves) :: rel(x, y)
    ensures Same(root, x, y)
  {
    var m := Quotient(ir, root);
    var rel: Relation := (a: nat, b: nat) => Evaluate(ir, m, a) == Evaluate(ir, m, b);
    KernelIsCongruence(ir, m, rel);
    forall e | e in leaves ensures rel(e.left, e.right) {
      DenotesClass(ir, root, e.left);
      DenotesClass(ir, root, e.right);
    }
    assert rel(x, y);
    DenotesClass(ir, root, x);
    DenotesClass(ir, root, y);
  }
}
