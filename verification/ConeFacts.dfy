/** Facts of a cone certificate: what each step derives, and when a certificate is valid. */
module ConeFacts {
  import opened Basics
  import opened IntegerArithmetic
  import opened Rationals
  import opened SparsePolynomials
  import opened RationalLattice
  import opened PolynomialIdentity

  datatype Relation = Eq | Neq | Lt | Leq | Gt | Geq
  datatype Premise = Premise(poly: Polynomial, rel: Relation)
  datatype Rule = One | FromPremise | IntegralGap | Square | Product | EqualityMultiple
  datatype Step = Step(rule: Rule, source: nat, left: nat, right: nat, factor: Polynomial, scale: Rational)
  datatype Fact = Fact(poly: Polynomial, equality: bool, strict: bool, sources: seq<nat>)

  ghost predicate Satisfies(premise: Premise, env: Assignment)
    requires ProperPoly(premise.poly)
  {
    var x := PolyValue(premise.poly, env);
    match premise.rel
    case Eq => x == 0.0
    case Neq => x != 0.0
    case Lt => x < 0.0
    case Leq => x <= 0.0
    case Gt => x > 0.0
    case Geq => x >= 0.0
  }

  /** The cited premises exist and are well formed. */
  ghost predicate Cites(premises: seq<Premise>, cited: seq<nat>) {
    forall k | 0 <= k < |cited| :: cited[k] < |premises| && ProperPoly(premises[cited[k]].poly)
  }

  /** An assignment in the domain under which every cited premise holds. */
  ghost predicate Models(premises: seq<Premise>, domain: Domain, cited: seq<nat>, env: Assignment)
    requires Cites(premises, cited)
  {
    && Integral(domain, env)
    && forall k | 0 <= k < |cited| :: Satisfies(premises[cited[k]], env)
  }

  /** What a fact claims about the value of its polynomial. */
  predicate Claims(equality: bool, strict: bool, x: real) {
    if equality then x == 0.0 else if strict then x > 0.0 else x >= 0.0
  }

  ghost predicate Sound(fact: Fact, premises: seq<Premise>, domain: Domain) {
    && ProperPoly(fact.poly) && Cites(premises, fact.sources)
    && !(fact.equality && fact.strict)
    && forall env: Assignment | Models(premises, domain, fact.sources, env) ::
         Claims(fact.equality, fact.strict, PolyValue(fact.poly, env))
  }

  ghost predicate AllSound(facts: seq<Fact>, premises: seq<Premise>, domain: Domain) {
    forall k | 0 <= k < |facts| :: Sound(facts[k], premises, domain)
  }

  predicate Oversized(c: Rational) {
    Bits(Abs(c.num)) > 4096 || Bits(Abs(c.den)) > 4096
  }

  /** Coefficients and monomials are in the accepted shape. */
  ghost predicate WellShaped(p: Polynomial) {
    forall w | w in p :: Proper(p[w]) && Within(w, 32)
  }

  /** The constant one. */
  ghost predicate IsOneFact(fact: Fact) {
    && ProperPoly(fact.poly) && !fact.equality && fact.strict && fact.sources == []
    && forall env: Assignment :: PolyValue(fact.poly, env) == 1.0
  }

  /** The premise read as `= 0`, `>= 0` or `> 0`, turned around when it bounds from above. */
  ghost predicate IsPremiseFact(fact: Fact, source: Premise, k: nat)
    requires ProperPoly(source.poly)
  {
    && ProperPoly(fact.poly) && fact.sources == [k] && source.rel != Neq
    && fact.equality == source.rel.Eq? && fact.strict == (source.rel.Lt? || source.rel.Gt?)
    && forall env: Assignment :: PolyValue(fact.poly, env) ==
         if source.rel.Lt? || source.rel.Leq? then -PolyValue(source.poly, env) else PolyValue(source.poly, env)
  }

  /** Such a fact claims exactly what the premise says. */
  lemma {:induction false} PremiseFactExact(fact: Fact, source: Premise, k: nat, env: Assignment)
    requires ProperPoly(source.poly) && IsPremiseFact(fact, source, k)
    ensures Claims(fact.equality, fact.strict, PolyValue(fact.poly, env)) <==> Satisfies(source, env)
  {
  }

  /** The parent lowered by a positive step whose multiples are all its integral values. */
  ghost predicate IsGapFact(fact: Fact, parent: Fact, domain: Domain, gap: Rational)
    requires ProperPoly(parent.poly)
  {
    && Proper(gap) && gap.num > 0 && ProperPoly(fact.poly)
    && !fact.equality && !fact.strict && fact.sources == parent.sources
    && (forall env: Assignment :: PolyValue(fact.poly, env) == PolyValue(parent.poly, env) - Value(gap))
    && forall env: Assignment | Integral(domain, env) :: Multiple(PolyValue(parent.poly, env), Value(gap))
  }

  /** The coarsest lattice of all coefficients of a polynomial over declared integers. */
  ghost predicate IsGap(poly: Polynomial, domain: Domain, gap: Rational) {
    && Proper(gap) && gap.num > 0 && (forall w | w in poly :: AllInteger(domain, w))
    && Lattice(poly, gap.num, gap.den)
    && forall num: int, den: int | Lattice(poly, num, den) :: Divides(num, gap.num) && Divides(gap.den, den)
  }

  /** The polynomial is the product of two others. */
  ghost predicate Multiplies(product: Polynomial, a: Polynomial, b: Polynomial)
    requires ProperPoly(product) && ProperPoly(a) && ProperPoly(b)
  {
    forall env: Assignment :: MultipliesAt(product, a, b, env)
  }

  ghost predicate MultipliesAt(product: Polynomial, a: Polynomial, b: Polynomial, env: Assignment)
    requires ProperPoly(product) && ProperPoly(a) && ProperPoly(b)
  {
    PolyValue(product, env) == PolyValue(a, env) * PolyValue(b, env)
  }

  /** The polynomial is a multiple of another. */
  ghost predicate ScaledTo(p: Polynomial, scale: Rational, product: Polynomial)
    requires Proper(scale) && ProperPoly(p) && ProperPoly(product)
  {
    forall env: Assignment :: ScaledAt(p, scale, product, env)
  }

  ghost predicate ScaledAt(p: Polynomial, scale: Rational, product: Polynomial, env: Assignment)
    requires Proper(scale) && ProperPoly(p) && ProperPoly(product)
  {
    PolyValue(product, env) == PolyValue(p, env) * Value(scale)
  }

  /** The product of two inequalities, strict exactly when both are. */
  ghost predicate IsProductFact(fact: Fact, left: Fact, right: Fact)
    requires ProperPoly(left.poly) && ProperPoly(right.poly)
  {
    && !left.equality && !right.equality && ProperPoly(fact.poly)
    && !fact.equality && fact.strict == (left.strict && right.strict)
    && (forall x :: x in fact.sources <==> x in left.sources || x in right.sources)
    && Multiplies(fact.poly, left.poly, right.poly)
  }

  /** A square is nonnegative. */
  ghost predicate IsSquareFact(fact: Fact, factor: Polynomial)
    requires ProperPoly(factor)
  {
    && ProperPoly(fact.poly) && !fact.equality && !fact.strict && fact.sources == []
    && Multiplies(fact.poly, factor, factor)
  }

  /** A multiple of an equality is an equality. */
  ghost predicate IsMultipleFact(fact: Fact, source: Premise, k: nat, factor: Polynomial)
    requires ProperPoly(source.poly) && ProperPoly(factor)
  {
    && ProperPoly(fact.poly) && fact.equality && !fact.strict && fact.sources == [k]
    && Multiplies(fact.poly, source.poly, factor)
  }

  /** The sources of both, the new ones after the old. */
  function Included(into: seq<nat>, from: seq<nat>): seq<nat> {
    if from == [] then into else
    var front, last := Included(into, from[..|from| - 1]), from[|from| - 1];
    if last in front then front else front + [last]
  }

  lemma {:induction false} IncludedMembers(into: seq<nat>, from: seq<nat>)
    ensures forall x :: x in Included(into, from) <==> x in into || x in from
  {
    if from != [] {
      IncludedMembers(into, from[..|from| - 1]);
      assert from == from[..|from| - 1] + [from[|from| - 1]];
    }
  }

  /** What a rule derives, before scaling. */
  ghost predicate Base(step: Step, premises: seq<Premise>, preceding: seq<Fact>, domain: Domain, b: Fact) {
    match step.rule
    case One => IsOneFact(b)
    case FromPremise =>
      && step.source < |premises| && WellShaped(premises[step.source].poly)
      && IsPremiseFact(b, premises[step.source], step.source)
    case IntegralGap =>
      && step.left < |preceding| && preceding[step.left].strict && !preceding[step.left].equality
      && WellShaped(preceding[step.left].poly)
      && exists gap :: IsGap(preceding[step.left].poly, domain, gap) && IsGapFact(b, preceding[step.left], domain, gap)
    case Square => WellShaped(step.factor) && IsSquareFact(b, step.factor)
    case Product =>
      && step.left < |preceding| && step.right < |preceding|
      && WellShaped(preceding[step.left].poly) && WellShaped(preceding[step.right].poly)
      && IsProductFact(b, preceding[step.left], preceding[step.right])
      && b.sources == Included(preceding[step.left].sources, preceding[step.right].sources)
    case EqualityMultiple =>
      && step.source < |premises| && premises[step.source].rel == Eq && WellShaped(premises[step.source].poly) && WellShaped(step.factor)
      && IsMultipleFact(b, premises[step.source], step.source, step.factor)
  }

  /** A positive multiple in normal form, of the same claim and sources. */
  ghost predicate Scales(b: Fact, scale: Rational, fact: Fact)
    requires Proper(scale)
  {
    && ProperPoly(b.poly) && ProperPoly(fact.poly) && Normal(fact.poly, 32)
    && fact.equality == b.equality && fact.strict == b.strict && fact.sources == b.sources
    && ScaledTo(b.poly, scale, fact.poly)
  }

  predicate Usable(scale: Rational) { scale.den > 0 && scale.num > 0 && !Oversized(scale) }

  /** The step derives the fact from the preceding ones. */
  ghost predicate Derives(step: Step, premises: seq<Premise>, preceding: seq<Fact>, domain: Domain, fact: Fact) {
    Usable(step.scale) && exists b :: Base(step, premises, preceding, domain, b) && Scales(b, step.scale, fact)
  }

  ghost predicate AllProper(facts: seq<Fact>) { forall k | 0 <= k < |facts| :: ProperPoly(facts[k].poly) }

  predicate AllWeights(weights: seq<Rational>, n: nat)
    requires n <= |weights|
  {
    forall k: nat | k < n :: Proper(weights[k])
  }

  /** Over the limits on terms and coefficients. */
  predicate Large(p: Polynomial) { |p| > 256 || exists w :: w in p && Oversized(p[w]) }

  /** Over the limits on factors. */
  ghost predicate TooMuch(a: Polynomial, b: Polynomial) {
    Large(a) || Large(b) || !WellShaped(a) || !WellShaped(b) || (|a| > 0 && |b| > 4096 / |a|)
  }

  /** The step's operands are over the limits. */
  ghost predicate Strained(step: Step, premises: seq<Premise>, preceding: seq<Fact>) {
    match step.rule
    case One => false
    case FromPremise => step.source < |premises| && Large(premises[step.source].poly)
    case IntegralGap => step.left < |preceding| && (Large(preceding[step.left].poly) || Fine(preceding[step.left].poly))
    case Square => TooMuch(step.factor, step.factor)
    case Product => step.left < |preceding| && step.right < |preceding| && TooMuch(preceding[step.left].poly, preceding[step.right].poly)
    case EqualityMultiple => step.source < |premises| && TooMuch(premises[step.source].poly, step.factor)
  }

  /** Nothing in the derivation is over the limits. */
  ghost predicate Comfortable(facts: seq<Fact>, steps: seq<Step>, premises: seq<Premise>) {
    |facts| == |steps| && forall k | 0 <= k < |steps| :: !Strained(steps[k], premises, facts[..k]) && !Large(facts[k].poly)
  }

  /** The weighted sum of the first facts. */
  ghost function Combination(facts: seq<Fact>, weights: seq<Rational>, n: nat, env: Assignment): real
    requires n <= |facts| && n <= |weights| && AllProper(facts) && AllWeights(weights, n)
  {
    if n == 0 then 0.0 else Combination(facts, weights, n - 1, env) + PolyValue(facts[n - 1].poly, env) * Value(weights[n - 1])
  }

  ghost predicate Weighable(fact: Fact, weight: Rational) {
    weight.den > 0 && !Oversized(weight) && (fact.equality || weight.num >= 0)
  }

  /** Facts derived one after another that refute the premises they cite: their weighted sum
      vanishes, although some strict fact counts and some premise is cited. */
  ghost predicate Refutes(facts: seq<Fact>, steps: seq<Step>, weights: seq<Rational>, premises: seq<Premise>, domain: Domain) {
    && |facts| == |steps| == |weights| <= 1024
    && AllProper(facts)
    && (forall k | 0 <= k < |steps| :: Derives(steps[k], premises, facts[..k], domain, facts[k]) && Weighable(facts[k], weights[k]))
    && (forall env: Assignment :: Combination(facts, weights, |facts|, env) == 0.0)
    && (exists k :: 0 <= k < |facts| && facts[k].strict && weights[k].num > 0)
    && exists k :: 0 <= k < |facts| && weights[k].num != 0 && facts[k].sources != []
  }

  /** The certificate is valid. */
  ghost predicate Valid(steps: seq<Step>, weights: seq<Rational>, premises: seq<Premise>, domain: Domain) {
    exists facts :: Refutes(facts, steps, weights, premises, domain)
  }

  lemma {:induction false} GapUnique(poly: Polynomial, domain: Domain, a: Rational, b: Rational)
    requires IsGap(poly, domain, a) && IsGap(poly, domain, b)
    ensures a == b
  {
    MutualDivides(a.num, b.num);
    MutualDivides(a.den, b.den);
  }

  /** Without a nonzero coefficient, or with a variable that is no integer, there is no gap. */
  lemma {:induction false} NoGap(poly: Polynomial, domain: Domain, gap: Rational)
    requires (exists w :: w in poly && !AllInteger(domain, w)) || forall w | w in poly :: poly[w].num == 0
    ensures !IsGap(poly, domain, gap)
  {
    if IsGap(poly, domain, gap) && forall w | w in poly :: poly[w].num == 0 {
      ZeroLattice(poly, gap.num, gap.den);
      ZeroDivides(gap.num);
    }
  }

  lemma {:induction false} ZeroLattice(poly: Polynomial, num: int, den: int)
    requires Lattice(poly, num, den) && forall w | w in poly :: poly[w].num == 0
    ensures Lattice(poly, 0, den)
  {
    forall w | w in poly ensures OnLattice(poly[w], 0, den) {
      assert OnLattice(poly[w], num, den);
      DividesBy(0, 0, 0);
    }
  }

  lemma {:induction false} ZeroDivides(a: int)
    ensures Divides(0, a) ==> a == 0
  {
  }

  ghost predicate SameValues(a: Fact, b: Fact) {
    && ProperPoly(a.poly) && ProperPoly(b.poly) && a.equality == b.equality && a.strict == b.strict && a.sources == b.sources
    && forall env: Assignment :: PolyValue(a.poly, env) == PolyValue(b.poly, env)
  }

  lemma {:induction false} ProductUnique(p: Polynomial, q: Polynomial, a: Polynomial, b: Polynomial)
    requires ProperPoly(p) && ProperPoly(q) && ProperPoly(a) && ProperPoly(b) && Multiplies(p, a, b) && Multiplies(q, a, b)
    ensures forall env: Assignment :: PolyValue(p, env) == PolyValue(q, env)
  {
    hide PolyValue;
    forall env: Assignment ensures PolyValue(p, env) == PolyValue(q, env) {
      assert MultipliesAt(p, a, b, env) && MultipliesAt(q, a, b, env);
    }
  }

  /** A rule derives one fact, up to how its polynomial is written. */
  lemma {:induction false} BaseUnique(step: Step, premises: seq<Premise>, preceding: seq<Fact>, domain: Domain, a: Fact, b: Fact)
    requires Base(step, premises, preceding, domain, a) && Base(step, premises, preceding, domain, b)
    ensures SameValues(a, b)
  {
    hide PolyValue;
    if step.rule.IntegralGap? {
      hide IsGap;
      var parent := preceding[step.left];
      var x :| IsGap(parent.poly, domain, x) && IsGapFact(a, parent, domain, x);
      var y :| IsGap(parent.poly, domain, y) && IsGapFact(b, parent, domain, y);
      GapUnique(parent.poly, domain, x, y);
    } else if step.rule.Square? {
      ProductUnique(a.poly, b.poly, step.factor, step.factor);
    } else if step.rule.Product? {
      ProductUnique(a.poly, b.poly, preceding[step.left].poly, preceding[step.right].poly);
    } else if step.rule.EqualityMultiple? {
      ProductUnique(a.poly, b.poly, premises[step.source].poly, step.factor);
    }
  }

  /** Two normal forms of facts with the same values are one. */
  lemma {:induction false} ScalesUnique(a: Fact, b: Fact, scale: Rational, f: Fact, g: Fact, bound: nat)
    requires Proper(scale) && SameValues(a, b) && Scales(a, scale, f) && bound >= 32
    requires ProperPoly(g.poly) && Normal(g.poly, bound) && g.equality == b.equality && g.strict == b.strict && g.sources == b.sources
    requires ScaledTo(b.poly, scale, g.poly)
    ensures f == g
  {
    hide PolyValue, Value;
    assert Normal(f.poly, bound) by { NormalWiden(f.poly, bound); }
    forall env: Assignment ensures PolyValue(f.poly, env) == PolyValue(g.poly, env) {
      assert ScaledAt(a.poly, scale, f.poly, env) && ScaledAt(b.poly, scale, g.poly, env);
    }
    SamePolynomial(f.poly, g.poly, bound);
  }

  lemma {:induction false} NormalWiden(p: Polynomial, bound: nat)
    requires Normal(p, 32) && bound >= 32
    ensures Normal(p, bound)
  {
  }

  /** A step derives at most one fact. */
  lemma {:induction false} DerivesUnique(step: Step, premises: seq<Premise>, preceding: seq<Fact>, domain: Domain, f: Fact, g: Fact)
    requires Derives(step, premises, preceding, domain, f) && Derives(step, premises, preceding, domain, g)
    ensures f == g
  {
    hide Base, PolyValue, Normal;
    var a :| Base(step, premises, preceding, domain, a) && Scales(a, step.scale, f);
    var b :| Base(step, premises, preceding, domain, b) && Scales(b, step.scale, g);
    BaseUnique(step, premises, preceding, domain, a, b);
    ScalesUnique(a, b, step.scale, f, g, 32);
  }

  /** Whatever facts refute, they begin with those already derived. */
  lemma {:induction false} DerivedPrefix(facts: seq<Fact>, derived: seq<Fact>, steps: seq<Step>, weights: seq<Rational>, premises: seq<Premise>, domain: Domain)
    requires Refutes(facts, steps, weights, premises, domain) && |derived| <= |steps|
    requires forall k | 0 <= k < |derived| :: Derives(steps[k], premises, derived[..k], domain, derived[k])
    ensures derived == facts[..|derived|]
  {
    hide Derives, Weighable;
    if derived != [] {
      var n := |derived| - 1;
      var front := derived[..n];
      forall k | 0 <= k < n ensures Derives(steps[k], premises, front[..k], domain, front[k]) {
        assert front[..k] == derived[..k];
      }
      DerivedPrefix(facts, front, steps, weights, premises, domain);
      DerivesUnique(steps[n], premises, facts[..n], domain, derived[n], facts[n]);
    }
  }
}
