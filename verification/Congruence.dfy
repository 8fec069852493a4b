/** Congruences on term handles: the equality relations that any interpretation
    of the function symbols can induce. */
module Congruence {
  import opened Terms

  type Relation = (nat, nat) -> bool

  datatype Equality = Equality(left: nat, right: nat)

  predicate IsApplication(ir: Dag, x: nat) {
    x < |ir| && ir[x].op.UFApply? && |ir[x].children| > 0
  }

  /** Applications of one symbol to equally many arguments. */
  predicate SameSymbol(ir: Dag, x: nat, y: nat) {
    && IsApplication(ir, x) && IsApplication(ir, y)
    && ir[x].op == ir[y].op && |ir[x].children| == |ir[y].children|
  }

  ghost predicate ArgumentsRelated(ir: Dag, rel: Relation, x: nat, y: nat)
    requires SameSymbol(ir, x, y)
  {
    forall k | 0 <= k < |ir[x].children| :: rel(ir[x].children[k], ir[y].children[k])
  }

  ghost predicate IsEquivalence(rel: Relation) {
    && (forall x: nat :: rel(x, x))
    && (forall x: nat, y: nat :: rel(x, y) ==> rel(y, x))
    && (forall x: nat, y: nat, z: nat :: rel(x, y) && rel(y, z) ==> rel(x, z))
  }

  ghost predicate IsCongruence(ir: Dag, rel: Relation) {
    && IsEquivalence(rel)
    && forall x: nat, y: nat | SameSymbol(ir, x, y) && ArgumentsRelated(ir, rel, x, y) :: rel(x, y)
  }

  ghost predicate Includes(rel: Relation, equalities: set<Equality>) {
    forall e | e in equalities :: rel(e.left, e.right)
  }

  /** An arbitrary interpretation: functions for the symbols, values for every other term. */
  datatype Interpretation<!D> = Interpretation(apply: (string, seq<D>) -> D, other: nat -> D)

  function Evaluate<D>(ir: Dag, m: Interpretation<D>, x: nat): D
    requires Ordered(ir)
    decreases x
  {
    if IsApplication(ir, x) then
      m.apply(ir[x].op.symbol, EvaluateAll(ir, m, x, ir[x].children))
    else m.other(x)
  }

  function EvaluateAll<D>(ir: Dag, m: Interpretation<D>, bound: nat, xs: seq<nat>): (r: seq<D>)
    requires Ordered(ir) && forall k | 0 <= k < |xs| :: xs[k] < bound
    ensures |r| == |xs| && forall k | 0 <= k < |xs| :: r[k] == Evaluate(ir, m, xs[k])
    decreases bound, |xs|
  {
    if xs == [] then [] else [Evaluate(ir, m, xs[0])] + EvaluateAll(ir, m, bound, xs[1..])
  }

  /** Equality under an interpretation is a congruence. */
  lemma {:induction false} KernelIsCongruence<D>(ir: Dag, m: Interpretation<D>, rel: Relation)
    requires Ordered(ir)
    requires forall x: nat, y: nat :: rel(x, y) <==> Evaluate(ir, m, x) == Evaluate(ir, m, y)
    ensures IsCongruence(ir, rel)
  {
    forall x: nat, y: nat | SameSymbol(ir, x, y) && ArgumentsRelated(ir, rel, x, y) ensures rel(x, y) {
      assert EvaluateAll(ir, m, x, ir[x].children) == EvaluateAll(ir, m, y, ir[y].children);
    }
  }
}
