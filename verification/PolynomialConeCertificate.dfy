/** Replaying a cone certificate: nonnegative combinations of derived facts that
    cancel to the zero polynomial refute the premises they came from. */
module PolynomialConeCertificate {
  import opened Basics
  import opened Rationals
  import opened SparsePolynomials
  import opened RationalLattice
  import opened IntegerArithmetic
  import opened PolynomialIdentity
  import opened ConeFacts

  /** Term, coefficient and shape checks on one polynomial. */
  method Checked(poly: Polynomial, work: Work) returns (r: Outcome<bool>)
    requires work.Valid()
    modifies work
    ensures work.Valid() && work.steps >= old(work.steps)
    ensures r == Done(true) ==> ProperPoly(poly) && forall w | w in poly :: Within(w, 32)
    ensures r == Done(false) ==> exists w :: w in poly && (!Proper(poly[w]) || !Within(w, 32))
    ensures r.Stop? ==> r.reason == Exhausted && (work.halted || Large(poly))
  {
    if |poly| > 256 {
      return Stop(Exhausted);
    }
    var rest := poly.Keys;
    while rest != {}
      invariant work.Valid() && work.steps >= old(work.steps) && rest <= poly.Keys
      invariant forall w | w in poly.Keys - rest :: Proper(poly[w]) && Within(w, 32)
    {
      var w :| w in rest;
      :- work.Tick(1 + |w|);
      if poly[w].den <= 0 {
        return Done(false);
      }
      if Oversized(poly[w]) {
        return Stop(Exhausted);
      }
      if !Within(w, 32) {
        return Done(false);
      }
      rest := rest - {w};
    }
    return Done(true);
  }

  /** One term of `a` times the chosen terms of `b`. */
  ghost function Row(c: Rational, left: Monomial, b: Polynomial, done: set<Monomial>, env: Assignment): real
    requires Proper(c) && ProperPoly(b) && done <= b.Keys
  {
    Value(c) * MonomialValue(left, env) * PartValue(b, done, env)
  }

  ghost predicate RowAdded(result: Polynomial, into: Polynomial, c: Rational, left: Monomial, b: Polynomial, done: set<Monomial>)
    requires Proper(c) && ProperPoly(b) && done <= b.Keys && ProperPoly(into)
  {
    && ProperPoly(result)
    && forall env: Assignment :: PolyValue(result, env) == PolyValue(into, env) + Row(c, left, b, done, env)
  }

  lemma {:induction false} RowGrows(c: Rational, left: Monomial, b: Polynomial, done: set<Monomial>, right: Monomial, word: Monomial, env: Assignment)
    requires Proper(c) && ProperPoly(b) && done <= b.Keys && right in b && right !in done
    requires MonomialValue(word, env) == MonomialValue(left, env) * MonomialValue(right, env)
    ensures Row(c, left, b, done + {right}, env) ==
            Row(c, left, b, done, env) + Value(Multiply(c, b[right])) * MonomialValue(word, env)
  {
    hide Value, MonomialValue, PartValue, Multiply;
    PartAdd(b, done, right, env);
  }

  lemma {:induction false} RowStepAt(result: Polynomial, into: Polynomial, c: Rational, left: Monomial, b: Polynomial, done: set<Monomial>,
                  right: Monomial, word: Monomial, env: Assignment)
    requires Proper(c) && ProperPoly(b) && done <= b.Keys && right in b && right !in done && ProperPoly(into)
    requires ProperPoly(result) && PolyValue(result, env) == PolyValue(into, env) + Row(c, left, b, done, env)
    requires MonomialValue(word, env) == MonomialValue(left, env) * MonomialValue(right, env)
    ensures ProperPoly(Bump(result, word, Multiply(c, b[right])))
    ensures PolyValue(Bump(result, word, Multiply(c, b[right])), env) ==
            PolyValue(into, env) + Row(c, left, b, done + {right}, env)
  {
    hide Value, MonomialValue, PartValue, PolyValue, Bump, Row, Multiply;
    BumpValue(result, word, Multiply(c, b[right]), env);
    RowGrows(c, left, b, done, right, word, env);
  }

  lemma {:induction false} RowStep(result: Polynomial, into: Polynomial, c: Rational, left: Monomial, b: Polynomial, done: set<Monomial>,
                right: Monomial, word: Monomial)
    requires Proper(c) && ProperPoly(b) && done <= b.Keys && right in b && right !in done && ProperPoly(into)
    requires RowAdded(result, into, c, left, b, done)
    requires IsProductWord(word, left, right)
    ensures RowAdded(Bump(result, word, Multiply(c, b[right])), into, c, left, b, done + {right})
  {
    hide Value, MonomialValue, PartValue, PolyValue, Row, Multiply;
    forall env: Assignment {
      RowStepAt(result, into, c, left, b, done, right, word, env);
    }
  }

  /** Add one term times a whole polynomial. */
  method AddProducts(into: Polynomial, left: Monomial, c: Rational, b: Polynomial, work: Work) returns (r: Outcome<Polynomial>)
    requires ProperPoly(into) && ProperPoly(b) && Proper(c) && work.Valid()
    requires Within(left, 32) && PolyWithin(b, 32) && PolyWithin(into, 64)
    modifies work
    ensures work.Valid() && work.steps >= old(work.steps)
    ensures r.Done? ==> RowAdded(r.value, into, c, left, b, b.Keys) && PolyWithin(r.value, 64)
    ensures r.Stop? ==> r.reason == Exhausted && work.halted
  {
    var result := into;
    var rest := b.Keys;
    assert b.Keys - rest == {};
    while rest != {}
      invariant work.Valid() && work.steps >= old(work.steps) && rest <= b.Keys && ProperPoly(result) && PolyWithin(result, 64)
      invariant RowAdded(result, into, c, left, b, b.Keys - rest)
    {
      hide RowAdded, IsProductWord, MonomialValue, Multiply;
      var right :| right in rest;
      :- work.Tick(1 + |left| + |right|);
      var word := MergeMonomials(left, right);
      RowStep(result, into, c, left, b, b.Keys - rest, right, word);
      assert b.Keys - (rest - {right}) == b.Keys - rest + {right};
      result := Bump(result, word, Multiply(c, b[right]));
      rest := rest - {right};
    }
    assert b.Keys - rest == b.Keys;
    return Done(result);
  }

  ghost predicate IsProduct(result: Polynomial, a: Polynomial, done: set<Monomial>, b: Polynomial)
    requires ProperPoly(a) && done <= a.Keys && ProperPoly(b)
  {
    && ProperPoly(result)
    && forall env: Assignment :: PolyValue(result, env) == PartValue(a, done, env) * PolyValue(b, env)
  }

  lemma {:induction false} ProductStart(a: Polynomial, b: Polynomial)
    requires ProperPoly(a) && ProperPoly(b)
    ensures IsProduct(map[], a, {}, b)
  {
    forall env: Assignment ensures PolyValue(map[], env) == PartValue(a, {}, env) * PolyValue(b, env) {
      PartEmpty(a, env);
      PartEmpty(map[], env);
    }
  }

  lemma {:induction false} ProductStep(before: Polynomial, a: Polynomial, done: set<Monomial>, b: Polynomial, left: Monomial, result: Polynomial)
    requires ProperPoly(a) && done <= a.Keys && ProperPoly(b) && left in a && left !in done
    requires IsProduct(before, a, done, b) && RowAdded(result, before, a[left], left, b, b.Keys)
    ensures IsProduct(result, a, done + {left}, b)
  {
    hide Value, MonomialValue, PartValue, Row;
    forall env: Assignment {
      ProductStepAt(before, a, done, b, left, result, env);
    }
  }

  lemma {:induction false} ProductStepAt(before: Polynomial, a: Polynomial, done: set<Monomial>, b: Polynomial, left: Monomial,
                      result: Polynomial, env: Assignment)
    requires ProperPoly(a) && done <= a.Keys && ProperPoly(b) && left in a && left !in done
    requires ProperPoly(before) && ProperPoly(result)
    requires PolyValue(before, env) == PartValue(a, done, env) * PolyValue(b, env)
    requires PolyValue(result, env) == PolyValue(before, env) + Row(a[left], left, b, b.Keys, env)
    ensures PolyValue(result, env) == PartValue(a, done + {left}, env) * PolyValue(b, env)
  {
    hide Value, MonomialValue, PartValue;
    PartAdd(a, done, left, env);
    ProductAlgebra(PartValue(a, done, env), Value(a[left]), MonomialValue(left, env), PartValue(b, b.Keys, env),
      PartValue(a, done + {left}, env));
  }

  lemma {:induction false} ProductAlgebra(x: real, c: real, w: real, y: real, next: real)
    requires next == x + c * w
    ensures x * y + c * w * y == next * y
  {
  }

  /** Sparse multiplication. */
  method MultiplyPolynomials(a: Polynomial, b: Polynomial, work: Work) returns (r: Outcome<Polynomial>)
    requires work.Valid()
    modifies work
    ensures work.Valid() && work.steps >= old(work.steps)
    ensures r.Done? ==> WellShaped(a) && WellShaped(b) && IsProduct(r.value, a, a.Keys, b) && PolyWithin(r.value, 64)
    ensures r.Stop? ==> r.reason == Exhausted && (work.halted || TooMuch(a, b))
  {
    hide IsProduct, RowAdded, PolyValue, Within;
    var goodA :- Checked(a, work);
    if !goodA {
      return Stop(Exhausted);
    }
    var goodB :- Checked(b, work);
    if !goodB || (|a| > 0 && |b| > 4096 / |a|) {
      return Stop(Exhausted);
    }
    var result: Polynomial := map[];
    var rest := a.Keys;
    ProductStart(a, b);
    assert a.Keys - rest == {};
    while rest != {}
      invariant work.Valid() && work.steps >= old(work.steps) && rest <= a.Keys && ProperPoly(result) && PolyWithin(result, 64)
      invariant IsProduct(result, a, a.Keys - rest, b)
    {
      var left :| left in rest;
      ghost var before := result;
      result :- AddProducts(result, left, a[left], b, work);
      assert ProperPoly(result) by { RowProper(result, before, a[left], left, b); }
      ProductStep(before, a, a.Keys - rest, b, left, result);
      assert a.Keys - (rest - {left}) == a.Keys - rest + {left};
      rest := rest - {left};
    }
    assert a.Keys - rest == a.Keys;
    TrimProduct(result, a, b);
    return Done(WithoutZeros(result));
  }

  lemma {:induction false} RowProper(result: Polynomial, into: Polynomial, c: Rational, left: Monomial, b: Polynomial)
    requires Proper(c) && ProperPoly(b) && ProperPoly(into) && RowAdded(result, into, c, left, b, b.Keys)
    ensures ProperPoly(result)
  {
  }

  lemma {:induction false} TrimProduct(result: Polynomial, a: Polynomial, b: Polynomial)
    requires ProperPoly(a) && ProperPoly(b) && IsProduct(result, a, a.Keys, b)
    ensures IsProduct(WithoutZeros(result), a, a.Keys, b)
  {
    forall env: Assignment ensures PolyValue(WithoutZeros(result), env) == PartValue(a, a.Keys, env) * PolyValue(b, env) {
      WithoutZerosValue(result, env);
    }
  }

  function ScaledBy(p: Polynomial, c: Rational): Polynomial
    requires Proper(c) && forall w | w in p :: Proper(p[w])
  {
    map w | w in p :: Multiply(p[w], c)
  }

  lemma {:induction false} ScaledTerm(x: real, c: real, w: real, t: real)
    requires t == x * w
    ensures (x * c) * w == t * c
  {
  }

  lemma {:induction false} ScaledPart(p: Polynomial, c: Rational, keys: set<Monomial>, env: Assignment)
    requires ProperPoly(p) && Proper(c) && keys <= p.Keys
    ensures ProperPoly(ScaledBy(p, c)) && keys <= ScaledBy(p, c).Keys
    ensures PartValue(ScaledBy(p, c), keys, env) == PartValue(p, keys, env) * Value(c)
    decreases |keys|
  {
    hide Value, MonomialValue, PartValue, Multiply;
    var q := ScaledBy(p, c);
    if keys == {} {
      PartEmpty(p, env);
      PartEmpty(q, env);
    } else {
      var w :| w in keys;
      PartRemove(p, keys, w, env);
      PartRemove(q, keys, w, env);
      ScaledPart(p, c, keys - {w}, env);
      ScaledTerm(Value(p[w]), Value(c), MonomialValue(w, env), TermValue(p, w, env));
    }
  }

  lemma {:induction false} ScaledValue(p: Polynomial, c: Rational, env: Assignment)
    requires ProperPoly(p) && Proper(c)
    ensures ProperPoly(ScaledBy(p, c)) && PolyValue(ScaledBy(p, c), env) == PolyValue(p, env) * Value(c)
  {
    hide Value, MonomialValue, PartValue, Multiply;
    ScaledPart(p, c, p.Keys, env);
    assert ScaledBy(p, c).Keys == p.Keys;
  }

  function Negated(p: Polynomial): Polynomial
    requires forall w | w in p :: Proper(p[w])
  {
    map w | w in p :: Negate(p[w])
  }

  lemma {:induction false} NegatedPart(p: Polynomial, keys: set<Monomial>, env: Assignment)
    requires ProperPoly(p) && keys <= p.Keys
    ensures ProperPoly(Negated(p)) && keys <= Negated(p).Keys
    ensures PartValue(Negated(p), keys, env) == -PartValue(p, keys, env)
    decreases |keys|
  {
    hide Value, MonomialValue, PartValue, Negate;
    var q := Negated(p);
    if keys == {} {
      PartEmpty(p, env);
      PartEmpty(q, env);
    } else {
      var w :| w in keys;
      PartRemove(p, keys, w, env);
      PartRemove(q, keys, w, env);
      NegatedPart(p, keys - {w}, env);
      NegateTerm(Value(p[w]), MonomialValue(w, env));
    }
  }

  lemma {:induction false} NegateTerm(x: real, w: real)
    ensures (-x) * w == -(x * w)
  {
  }

  lemma {:induction false} NegatedValue(p: Polynomial, env: Assignment)
    requires ProperPoly(p)
    ensures ProperPoly(Negated(p)) && PolyValue(Negated(p), env) == -PolyValue(p, env)
  {
    NegatedPart(p, p.Keys, env);
    assert Negated(p).Keys == p.Keys;
  }

  /** Append the sources not yet listed. */
  method Include(into: seq<nat>, from: seq<nat>) returns (all: seq<nat>)
    ensures all == Included(into, from)
  {
    all := into;
    for i := 0 to |from|
      invariant all == Included(into, from[..i])
    {
      assert from[..i + 1][..i] == from[..i];
      if from[i] !in all {
        all := all + [from[i]];
      }
    }
    assert from[..|from|] == from;
  }

  lemma {:induction false} CitesSubset(premises: seq<Premise>, all: seq<nat>, some: seq<nat>)
    requires Cites(premises, all) && forall x | x in some :: x in all
    ensures Cites(premises, some)
  {
    forall k | 0 <= k < |some| ensures some[k] < |premises| && ProperPoly(premises[some[k]].poly) {
      assert some[k] in some;
      var j :| 0 <= j < |all| && all[j] == some[k];
    }
  }

  lemma {:induction false} CitesUnion(premises: seq<Premise>, all: seq<nat>, a: seq<nat>, b: seq<nat>)
    requires Cites(premises, a) && Cites(premises, b)
    requires forall x :: x in all <==> x in a || x in b
    ensures Cites(premises, all)
  {
    CitesSubset(premises, a + b, all);
  }

  lemma {:induction false} ModelsSubset(premises: seq<Premise>, domain: Domain, all: seq<nat>, some: seq<nat>, env: Assignment)
    requires Cites(premises, all) && forall x | x in some :: x in all
    requires Models(premises, domain, all, env)
    ensures Cites(premises, some) && Models(premises, domain, some, env)
  {
    CitesSubset(premises, all, some);
    forall k | 0 <= k < |some| ensures Satisfies(premises[some[k]], env) {
      assert some[k] in some;
      var j :| 0 <= j < |all| && all[j] == some[k];
    }
  }

  /** A rule's fact before the final positive scaling; refused only when the rule derives none. */
  method ApplyRule(step: Step, premises: seq<Premise>, preceding: seq<Fact>, domain: Domain, work: Work)
    returns (r: Outcome<Fact>)
    requires AllSound(preceding, premises, domain) && work.Valid()
    modifies work
    ensures work.Valid() && work.steps >= old(work.steps)
    ensures r.Done? ==> Sound(r.value, premises, domain)
    ensures r.Done? ==> Base(step, premises, preceding, domain, r.value) && PolyWithin(r.value.poly, 64)
    ensures r.Stop? && r.reason != Malformed ==> work.halted || Strained(step, premises, preceding)
    ensures r.Stop? && r.reason == Malformed ==> forall b :: !Base(step, premises, preceding, domain, b)
  {
    hide Sound, PolyValue, IsGap;
    match step.rule
    case One =>
      r := ApplyOne(premises, domain);
    case FromPremise =>
      r := ApplyPremise(step, premises, domain, work);
    case IntegralGap =>
      r := ApplyGap(step, premises, preceding, domain, work);
    case Square =>
      r := ApplySquare(step, premises, domain, work);
    case Product =>
      r := ApplyProduct(step, premises, preceding, domain, work);
    case EqualityMultiple =>
      r := ApplyMultiple(step, premises, domain, work);
  }

  method ApplyOne(premises: seq<Premise>, domain: Domain) returns (r: Outcome<Fact>)
    ensures r.Done? && Sound(r.value, premises, domain) && IsOneFact(r.value) && PolyWithin(r.value.poly, 64)
  {
    var one: Polynomial := map[[] := Rational(1, 1)];
    forall env: Assignment ensures PolyValue(one, env) == 1.0 {
      PartRemove(one, {[]}, [], env);
      assert one.Keys == {[]};
    }
    return Done(Fact(one, false, true, []));
  }

  /** Builds the square of the factor. */
  method ApplySquare(step: Step, premises: seq<Premise>, domain: Domain, work: Work) returns (r: Outcome<Fact>)
    requires work.Valid()
    modifies work
    ensures work.Valid() && work.steps >= old(work.steps)
    ensures r.Done? ==> Sound(r.value, premises, domain) && PolyWithin(r.value.poly, 64)
    ensures r.Done? ==> WellShaped(step.factor) && IsSquareFact(r.value, step.factor)
    ensures r.Stop? ==> r.reason == Exhausted && (work.halted || TooMuch(step.factor, step.factor))
  {
    hide Sound, PolyValue, Multiplies, IsProduct;
    var square;
    square :- MultiplyPolynomials(step.factor, step.factor, work);
    ProductValue(square, step.factor, step.factor);
    SquareSound(Fact(square, false, false, []), premises, domain, step.factor);
    return Done(Fact(square, false, false, []));
  }

  /** Builds a multiple of an equality; refused only for a missing source or one that is no equality. */
  method ApplyMultiple(step: Step, premises: seq<Premise>, domain: Domain, work: Work) returns (r: Outcome<Fact>)
    requires work.Valid()
    modifies work
    ensures work.Valid() && work.steps >= old(work.steps)
    ensures r.Done? ==> Sound(r.value, premises, domain) && PolyWithin(r.value.poly, 64)
    ensures r.Done? ==> step.source < |premises| && premises[step.source].rel == Eq
                        && WellShaped(premises[step.source].poly) && WellShaped(step.factor)
                        && IsMultipleFact(r.value, premises[step.source], step.source, step.factor)
    ensures r.Stop? && r.reason != Malformed ==>
              work.halted || (step.source < |premises| && TooMuch(premises[step.source].poly, step.factor))
    ensures r.Stop? && r.reason == Malformed ==> step.source >= |premises| || premises[step.source].rel != Eq
  {
    hide Sound, PolyValue, Multiplies, IsProduct;
    if step.source >= |premises| || premises[step.source].rel != Eq {
      return Stop(Malformed);
    }
    var multiple :- MultiplyPolynomials(premises[step.source].poly, step.factor, work);
    ProductValue(multiple, premises[step.source].poly, step.factor);
    MultipleSound(Fact(multiple, true, false, [step.source]), premises, domain, step.source, step.factor);
    return Done(Fact(multiple, true, false, [step.source]));
  }

  lemma {:induction false} MultipleSound(fact: Fact, premises: seq<Premise>, domain: Domain, k: nat, factor: Polynomial)
    requires k < |premises| && premises[k].rel == Eq && ProperPoly(premises[k].poly) && ProperPoly(factor)
    requires IsMultipleFact(fact, premises[k], k, factor)
    ensures Sound(fact, premises, domain)
  {
    hide PolyValue;
    forall env: Assignment | Models(premises, domain, fact.sources, env) ensures PolyValue(fact.poly, env) == 0.0 {
      assert Satisfies(premises[fact.sources[0]], env) && MultipliesAt(fact.poly, premises[k].poly, factor, env);
      TimesZero(PolyValue(premises[k].poly, env), PolyValue(factor, env));
    }
  }

  lemma {:induction false} TimesZero(x: real, y: real)
    requires x == 0.0
    ensures x * y == 0.0
  {
  }

  lemma {:induction false} SquareSound(fact: Fact, premises: seq<Premise>, domain: Domain, factor: Polynomial)
    requires ProperPoly(factor) && IsSquareFact(fact, factor)
    ensures Sound(fact, premises, domain)
  {
    hide PolyValue;
    forall env: Assignment | Models(premises, domain, fact.sources, env) ensures PolyValue(fact.poly, env) >= 0.0 {
      assert MultipliesAt(fact.poly, factor, factor, env);
      SquareNonnegative(PolyValue(factor, env));
    }
  }

  lemma {:induction false} SquareNonnegative(x: real)
    ensures x * x >= 0.0
  {
  }

  /** Builds the premise's own fact; refused only for a missing source, a disequality or a bad polynomial. */
  method ApplyPremise(step: Step, premises: seq<Premise>, domain: Domain, work: Work) returns (r: Outcome<Fact>)
    requires work.Valid()
    modifies work
    ensures work.Valid() && work.steps >= old(work.steps)
    ensures r.Done? ==> Sound(r.value, premises, domain)
    ensures r.Done? ==> step.source < |premises| && WellShaped(premises[step.source].poly) && PolyWithin(r.value.poly, 64)
                        && IsPremiseFact(r.value, premises[step.source], step.source)
    ensures r.Stop? && r.reason != Malformed ==> work.halted || (step.source < |premises| && Large(premises[step.source].poly))
    ensures r.Stop? && r.reason == Malformed ==>
              step.source >= |premises| || premises[step.source].rel == Neq || !WellShaped(premises[step.source].poly)
  {
    if step.source >= |premises| {
      return Stop(Malformed);
    }
    var source := premises[step.source];
    if source.rel == Neq {
      return Stop(Malformed);
    }
    var good :- Checked(source.poly, work);
    if !good {
      return Stop(Malformed);
    }
    var flip := source.rel == Lt || source.rel == Leq;
    var fact := Fact(if flip then Negated(source.poly) else source.poly,
      source.rel == Eq, source.rel == Lt || source.rel == Gt, [step.source]);
    assert ProperPoly(fact.poly) by { NegatedValue(source.poly, _ => 0.0); }
    forall env: Assignment ensures PolyValue(fact.poly, env) == if flip then -PolyValue(source.poly, env) else PolyValue(source.poly, env) {
      NegatedValue(source.poly, env);
    }
    PremiseSound(fact, premises, domain, step.source);
    return Done(fact);
  }

  lemma {:induction false} PremiseSound(fact: Fact, premises: seq<Premise>, domain: Domain, k: nat)
    requires k < |premises| && ProperPoly(premises[k].poly) && IsPremiseFact(fact, premises[k], k)
    ensures Sound(fact, premises, domain)
  {
    forall env: Assignment | Models(premises, domain, fact.sources, env)
      ensures Claims(fact.equality, fact.strict, PolyValue(fact.poly, env))
    {
      assert Satisfies(premises[fact.sources[0]], env);
      PremiseFactExact(fact, premises[k], k, env);
    }
  }

  /** Builds a gap fact of a strict inequality. */
  method ApplyGap(step: Step, premises: seq<Premise>, preceding: seq<Fact>, domain: Domain, work: Work)
    returns (r: Outcome<Fact>)
    requires AllSound(preceding, premises, domain) && work.Valid()
    modifies work
    ensures work.Valid() && work.steps >= old(work.steps)
    ensures r.Done? ==> Sound(r.value, premises, domain)
    ensures r.Done? ==> step.left < |preceding| && preceding[step.left].strict && !preceding[step.left].equality
                        && WellShaped(preceding[step.left].poly) && PolyWithin(r.value.poly, 64)
                        && exists gap :: IsGap(preceding[step.left].poly, domain, gap) && IsGapFact(r.value, preceding[step.left], domain, gap)
    ensures r.Stop? && r.reason != Malformed ==>
              work.halted || (step.left < |preceding| && (Large(preceding[step.left].poly) || Fine(preceding[step.left].poly)))
    ensures r.Stop? && r.reason == Malformed ==>
              step.left >= |preceding| || preceding[step.left].equality || !preceding[step.left].strict
              || !WellShaped(preceding[step.left].poly) || forall gap :: !IsGap(preceding[step.left].poly, domain, gap)
  {
    if step.left >= |preceding| {
      return Stop(Malformed);
    }
    var parent := preceding[step.left];
    if parent.equality || !parent.strict {
      return Stop(Malformed);
    }
    var good :- Checked(parent.poly, work);
    if !good {
      return Stop(Malformed);
    }
    var gap :- RationalLatticeStep(parent.poly, domain, work);
    if gap.None? {
      forall gap ensures !IsGap(parent.poly, domain, gap) {
        NoGap(parent.poly, domain, gap);
      }
      return Stop(Malformed);
    }
    var down := Negate(gap.value);
    var poly := Bump(parent.poly, [], down);
    assert ProperPoly(poly) by { BumpValue(parent.poly, [], down, _ => 0.0); }
    forall env: Assignment ensures PolyValue(poly, env) == PolyValue(parent.poly, env) - Value(gap.value) {
      BumpValue(parent.poly, [], down, env);
    }
    forall env: Assignment | Models(premises, domain, parent.sources, env) ensures PolyValue(poly, env) >= 0.0 {
      PositiveMultiple(PolyValue(parent.poly, env), Value(gap.value));
    }
    assert IsGap(parent.poly, domain, gap.value);
    assert IsGapFact(Fact(poly, false, false, parent.sources), parent, domain, gap.value);
    return Done(Fact(poly, false, false, parent.sources));
  }

  /** Builds the product fact; refused only for missing facts or equalities. */
  method ApplyProduct(step: Step, premises: seq<Premise>, preceding: seq<Fact>, domain: Domain, work: Work)
    returns (r: Outcome<Fact>)
    requires AllSound(preceding, premises, domain) && work.Valid()
    modifies work
    ensures work.Valid() && work.steps >= old(work.steps)
    ensures r.Done? ==> Sound(r.value, premises, domain)
    ensures r.Done? ==> step.left < |preceding| && step.right < |preceding|
                        && WellShaped(preceding[step.left].poly) && WellShaped(preceding[step.right].poly)
                        && IsProductFact(r.value, preceding[step.left], preceding[step.right])
                        && r.value.sources == Included(preceding[step.left].sources, preceding[step.right].sources)
                        && PolyWithin(r.value.poly, 64)
    ensures r.Stop? && r.reason != Malformed ==>
              work.halted || (step.left < |preceding| && step.right < |preceding|
                              && TooMuch(preceding[step.left].poly, preceding[step.right].poly))
    ensures r.Stop? && r.reason == Malformed ==>
              step.left >= |preceding| || step.right >= |preceding| || preceding[step.left].equality || preceding[step.right].equality
  {
    hide PolyValue, Models, Sound, Multiplies, IsProduct;
    if step.left >= |preceding| || step.right >= |preceding| {
      return Stop(Malformed);
    }
    var left, right := preceding[step.left], preceding[step.right];
    if left.equality || right.equality {
      return Stop(Malformed);
    }
    var poly :- MultiplyPolynomials(left.poly, right.poly, work);
    ProductValue(poly, left.poly, right.poly);
    var sources := Include(left.sources, right.sources);
    var fact := Fact(poly, false, left.strict && right.strict, sources);
    IncludedMembers(left.sources, right.sources);
    ProductSound(fact, left, right, premises, domain);
    return Done(fact);
  }

  lemma {:induction false} ProductValue(result: Polynomial, a: Polynomial, b: Polynomial)
    requires ProperPoly(a) && ProperPoly(b) && IsProduct(result, a, a.Keys, b)
    ensures ProperPoly(result) && Multiplies(result, a, b)
  {
  }

  lemma {:induction false} ProductSound(fact: Fact, left: Fact, right: Fact, premises: seq<Premise>, domain: Domain)
    requires Sound(left, premises, domain) && Sound(right, premises, domain) && IsProductFact(fact, left, right)
    ensures Sound(fact, premises, domain)
  {
    hide PolyValue;
    CitesUnion(premises, fact.sources, left.sources, right.sources);
    forall env: Assignment | Models(premises, domain, fact.sources, env)
      ensures Claims(false, fact.strict, PolyValue(fact.poly, env))
    {
      ModelsSubset(premises, domain, fact.sources, left.sources, env);
      ModelsSubset(premises, domain, fact.sources, right.sources, env);
      assert MultipliesAt(fact.poly, left.poly, right.poly, env);
      SignProduct(PolyValue(left.poly, env), PolyValue(right.poly, env));
    }
  }

  lemma {:induction false} SignProduct(x: real, y: real)
    ensures x >= 0.0 && y >= 0.0 ==> x * y >= 0.0
    ensures x > 0.0 && y > 0.0 ==> x * y > 0.0
  {
  }

  /** Reconstruct one proof step from the preceding facts; refused only when the step derives nothing. */
  method DeriveStep(step: Step, premises: seq<Premise>, preceding: seq<Fact>, domain: Domain, work: Work)
    returns (r: Outcome<Fact>)
    requires AllSound(preceding, premises, domain) && work.Valid()
    modifies work
    ensures work.Valid() && work.steps >= old(work.steps)
    ensures r.Done? ==> Sound(r.value, premises, domain)
    ensures r.Done? ==> Derives(step, premises, preceding, domain, r.value)
    ensures r.Stop? && r.reason != Malformed ==>
              work.halted || Strained(step, premises, preceding) || forall fact | Derives(step, premises, preceding, domain, fact) :: Large(fact.poly)
    ensures r.Stop? && r.reason == Malformed ==> forall fact :: !Derives(step, premises, preceding, domain, fact)
  {
    hide Sound, Base, Scales, Normal;
    var unusable := step.scale.den <= 0 || step.scale.num <= 0 || Oversized(step.scale);
    :- work.Tick(1);
    if unusable {
      return Stop(Malformed);
    }
    var fact :- ApplyRule(step, premises, preceding, domain, work);
    SoundProper(fact, premises, domain);
    :- work.Tick(|fact.poly|);
    var poly := WithoutZeros(ScaledBy(fact.poly, step.scale));
    ScaledNormal(fact, step.scale, 64);
    forall other | Derives(step, premises, preceding, domain, other) ensures other.poly == poly {
      OnlyScaled(step, premises, preceding, domain, fact, other);
    }
    var good :- Checked(poly, work);
    if !good {
      forall other ensures !Derives(step, premises, preceding, domain, other) {
        if Derives(step, premises, preceding, domain, other) {
          OnlyScaled(step, premises, preceding, domain, fact, other);
          NormalShaped(other.poly);
        }
      }
      return Stop(Malformed);
    }
    ScaleSound(fact, premises, domain, step.scale);
    NarrowScaled(fact, step.scale);
    return Done(fact.(poly := poly));
  }

  lemma {:induction false} SoundProper(fact: Fact, premises: seq<Premise>, domain: Domain)
    requires Sound(fact, premises, domain)
    ensures ProperPoly(fact.poly)
  {
  }

  lemma {:induction false} NormalShaped(p: Polynomial)
    requires Normal(p, 32)
    ensures WellShaped(p)
  {
  }

  /** Scaled and trimmed, a polynomial is in normal form. */
  lemma {:induction false} ScaledNormal(fact: Fact, scale: Rational, bound: nat)
    requires Proper(scale) && ProperPoly(fact.poly) && PolyWithin(fact.poly, bound)
    ensures var poly := WithoutZeros(ScaledBy(fact.poly, scale)); ProperPoly(poly) && Normal(poly, bound) && ScaledTo(fact.poly, scale, poly)
  {
    hide Value, PolyValue;
    var poly := WithoutZeros(ScaledBy(fact.poly, scale));
    ScaledValue(fact.poly, scale, _ => 0.0);
    WithoutZerosValue(ScaledBy(fact.poly, scale), _ => 0.0);
    forall env: Assignment ensures ScaledAt(fact.poly, scale, poly, env) {
      ScaledValue(fact.poly, scale, env);
      WithoutZerosValue(ScaledBy(fact.poly, scale), env);
    }
  }

  /** Nothing but the scaled and trimmed fact can be derived. */
  lemma {:induction false} OnlyScaled(step: Step, premises: seq<Premise>, preceding: seq<Fact>, domain: Domain, fact: Fact, other: Fact)
    requires Derives(step, premises, preceding, domain, other) && Base(step, premises, preceding, domain, fact)
    requires ProperPoly(fact.poly) && PolyWithin(fact.poly, 64)
    ensures other.poly == WithoutZeros(ScaledBy(fact.poly, step.scale)) && Normal(other.poly, 32)
  {
    hide Base, PolyValue, Normal, WithoutZeros, ScaledBy;
    var b :| Base(step, premises, preceding, domain, b) && Scales(b, step.scale, other);
    BaseUnique(step, premises, preceding, domain, b, fact);
    ScaledNormal(fact, step.scale, 64);
    ScalesUnique(b, fact, step.scale, other, fact.(poly := WithoutZeros(ScaledBy(fact.poly, step.scale))), 64);
  }

  lemma {:induction false} NarrowScaled(fact: Fact, scale: Rational)
    requires Proper(scale) && ProperPoly(fact.poly)
    requires var poly := WithoutZeros(ScaledBy(fact.poly, scale)); WellShaped(poly) && Normal(poly, 64) && ScaledTo(fact.poly, scale, poly)
    ensures Scales(fact, scale, fact.(poly := WithoutZeros(ScaledBy(fact.poly, scale))))
  {
    hide PolyValue, Value, WithoutZeros, ScaledBy;
  }

  /** Positive scaling and trimming keep a fact's claim. */
  lemma {:induction false} ScaleSound(fact: Fact, premises: seq<Premise>, domain: Domain, scale: Rational)
    requires Sound(fact, premises, domain) && Proper(scale) && scale.num > 0
    ensures Sound(fact.(poly := WithoutZeros(ScaledBy(fact.poly, scale))), premises, domain)
  {
    var scaled := ScaledBy(fact.poly, scale);
    ScaledValue(fact.poly, scale, _ => 0.0);
    WithoutZerosValue(scaled, _ => 0.0);
    forall env: Assignment | Models(premises, domain, fact.sources, env)
      ensures Claims(fact.equality, fact.strict, PolyValue(WithoutZeros(scaled), env))
    {
      hide Value, PolyValue, ScaledBy, WithoutZeros, Models;
      ScaledValue(fact.poly, scale, env);
      WithoutZerosValue(scaled, env);
      var x, c := PolyValue(fact.poly, env), Value(scale);
      ScaleClaim(fact.equality, fact.strict, x, c);
    }
  }

  lemma {:induction false} ScaleClaim(equality: bool, strict: bool, x: real, c: real)
    requires Claims(equality, strict, x) && c > 0.0
    ensures Claims(equality, strict, x * c)
  {
  }

  ghost predicate WeightAdded(result: Polynomial, identity: Polynomial, poly: Polynomial, done: set<Monomial>, weight: Rational)
    requires ProperPoly(identity) && ProperPoly(poly) && done <= poly.Keys && Proper(weight)
  {
    && ProperPoly(result)
    && forall env: Assignment :: PolyValue(result, env) == PolyValue(identity, env) + PartValue(poly, done, env) * Value(weight)
  }

  lemma {:induction false} WeightStart(identity: Polynomial, poly: Polynomial, weight: Rational)
    requires ProperPoly(identity) && ProperPoly(poly) && Proper(weight)
    ensures WeightAdded(identity, identity, poly, {}, weight)
  {
    forall env: Assignment ensures PartValue(poly, {}, env) * Value(weight) == 0.0 {
      PartEmpty(poly, env);
    }
  }

  lemma {:induction false} WeightStep(result: Polynomial, identity: Polynomial, poly: Polynomial, done: set<Monomial>, weight: Rational, word: Monomial)
    requires ProperPoly(identity) && ProperPoly(poly) && done <= poly.Keys && Proper(weight)
    requires word in poly && word !in done && WeightAdded(result, identity, poly, done, weight)
    ensures WeightAdded(Bump(result, word, Multiply(poly[word], weight)), identity, poly, done + {word}, weight)
  {
    hide Value, MonomialValue, PartValue, Multiply, PolyValue;
    forall env: Assignment {
      WeightStepAt(result, identity, poly, done, weight, word, env);
    }
  }

  lemma {:induction false} WeightStepAt(result: Polynomial, identity: Polynomial, poly: Polynomial, done: set<Monomial>, weight: Rational,
                     word: Monomial, env: Assignment)
    requires ProperPoly(identity) && ProperPoly(poly) && done <= poly.Keys && Proper(weight)
    requires word in poly && word !in done && ProperPoly(result)
    requires PolyValue(result, env) == PolyValue(identity, env) + PartValue(poly, done, env) * Value(weight)
    ensures ProperPoly(Bump(result, word, Multiply(poly[word], weight)))
    ensures PolyValue(Bump(result, word, Multiply(poly[word], weight)), env) ==
            PolyValue(identity, env) + PartValue(poly, done + {word}, env) * Value(weight)
  {
    hide Value, MonomialValue, PartValue, PolyValue, Bump, Multiply;
    BumpValue(result, word, Multiply(poly[word], weight), env);
    PartAdd(poly, done, word, env);
    WeightAlgebra(PartValue(poly, done, env), Value(poly[word]), MonomialValue(word, env), Value(weight),
      Value(Multiply(poly[word], weight)), PartValue(poly, done + {word}, env));
  }

  lemma {:induction false} WeightAlgebra(x: real, v: real, w: real, c: real, product: real, next: real)
    requires product == v * c && next == x + v * w
    ensures x * c + product * w == next * c
  {
    assert product * w == (v * w) * c;
  }

  /** Add a weighted fact to the running combination. */
  method AddWeighted(identity: Polynomial, poly: Polynomial, weight: Rational, work: Work) returns (r: Outcome<Polynomial>)
    requires ProperPoly(identity) && ProperPoly(poly) && Proper(weight) && work.Valid()
    modifies work
    ensures work.Valid() && work.steps >= old(work.steps)
    requires PolyWithin(identity, 64) && PolyWithin(poly, 64)
    ensures r.Done? ==> WeightAdded(r.value, identity, poly, poly.Keys, weight) && PolyWithin(r.value, 64)
    ensures r.Stop? ==> r.reason == Exhausted && work.halted
  {
    var result := identity;
    var rest := poly.Keys;
    WeightStart(identity, poly, weight);
    assert poly.Keys - rest == {};
    while rest != {}
      invariant work.Valid() && work.steps >= old(work.steps) && rest <= poly.Keys && ProperPoly(result) && PolyWithin(result, 64)
      invariant WeightAdded(result, identity, poly, poly.Keys - rest, weight)
    {
      hide WeightAdded, Multiply;
      var word :| word in rest;
      :- work.Tick(|word| + 1);
      WeightStep(result, identity, poly, poly.Keys - rest, weight, word);
      assert poly.Keys - (rest - {word}) == poly.Keys - rest + {word};
      result := Bump(result, word, Multiply(poly[word], weight));
      rest := rest - {word};
    }
    assert poly.Keys - rest == poly.Keys;
    return Done(result);
  }

  /** The running combination is nonnegative, or positive, in every model of the cited premises. */
  ghost predicate Accumulated(identity: Polynomial, strict: bool, premises: seq<Premise>, domain: Domain, cited: seq<nat>) {
    && ProperPoly(identity) && Cites(premises, cited)
    && forall env: Assignment | Models(premises, domain, cited, env) :: Claims(false, strict, PolyValue(identity, env))
  }

  lemma {:induction false} Accumulate(identity: Polynomial, strict: bool, premises: seq<Premise>, domain: Domain, cited: seq<nat>,
                   fact: Fact, weight: Rational, next: Polynomial, all: seq<nat>)
    requires Accumulated(identity, strict, premises, domain, cited) && Sound(fact, premises, domain)
    requires Proper(weight) && (fact.equality || weight.num >= 0)
    requires WeightAdded(next, identity, fact.poly, fact.poly.Keys, weight)
    requires all == Included(cited, fact.sources)
    ensures Accumulated(next, strict || (fact.strict && weight.num > 0), premises, domain, all)
  {
    IncludedMembers(cited, fact.sources);
    CitesUnion(premises, all, cited, fact.sources);
    forall env: Assignment | Models(premises, domain, all, env)
      ensures Claims(false, strict || (fact.strict && weight.num > 0), PolyValue(next, env))
    {
      ModelsSubset(premises, domain, all, cited, env);
      ModelsSubset(premises, domain, all, fact.sources, env);
      WeightedClaim(fact.equality, fact.strict, PolyValue(fact.poly, env), Value(weight));
    }
  }

  lemma {:induction false} WeightedClaim(equality: bool, strict: bool, x: real, c: real)
    requires Claims(equality, strict, x) && (equality || c >= 0.0)
    ensures x * c >= 0.0
    ensures !equality && strict && c > 0.0 ==> x * c > 0.0
  {
  }

  /** The loop's state after the first facts: the combination so far, what it cites, and whether a strict fact counts. */
  ghost predicate Summed(facts: seq<Fact>, weights: seq<Rational>, n: nat, identity: Polynomial, cited: seq<nat>, strict: bool) {
    && n <= |facts| && n <= |weights| && AllProper(facts) && AllWeights(weights, n) && ProperPoly(identity) && PolyWithin(identity, 64)
    && (forall env: Assignment :: PolyValue(identity, env) == Combination(facts, weights, n, env))
    && (strict <==> exists k: nat :: k < n && facts[k].strict && weights[k].num > 0)
    && (cited != [] <==> exists k: nat :: k < n && weights[k].num != 0 && facts[k].sources != [])
  }

  lemma {:induction false} CombinationExtends(facts: seq<Fact>, more: seq<Fact>, weights: seq<Rational>, n: nat, env: Assignment)
    requires n <= |facts| <= |more| && n <= |weights| && AllProper(more) && AllWeights(weights, n) && facts == more[..|facts|]
    ensures AllProper(facts) && Combination(more, weights, n, env) == Combination(facts, weights, n, env)
  {
    hide PolyValue, Value;
    assert forall k | 0 <= k < |facts| :: facts[k] == more[k];
    if n > 0 {
      CombinationExtends(facts, more, weights, n - 1, env);
    }
  }

  lemma {:induction false} SummedStart(weights: seq<Rational>)
    ensures Summed([], weights, 0, map[], [], false)
  {
    forall env: Assignment ensures PolyValue(map[], env) == 0.0 {
      ZeroEverywhere(env);
    }
  }

  lemma {:induction false} SummedNothing(facts: seq<Fact>, fact: Fact, weights: seq<Rational>, identity: Polynomial, cited: seq<nat>, strict: bool)
    requires Summed(facts, weights, |facts|, identity, cited, strict) && ProperPoly(fact.poly)
    requires |facts| < |weights| && Proper(weights[|facts|]) && weights[|facts|].num == 0
    ensures Summed(facts + [fact], weights, |facts| + 1, identity, cited, strict)
  {
    hide PolyValue;
    var n, more := |facts|, facts + [fact];
    forall env: Assignment ensures Combination(more, weights, n + 1, env) == PolyValue(identity, env) {
      CombinationExtends(facts, more, weights, n, env);
      ZeroWeight(PolyValue(fact.poly, env), weights[n]);
    }
    ExistsEarlier(facts, fact, weights);
  }

  lemma {:induction false} ZeroWeight(x: real, weight: Rational)
    requires Proper(weight) && weight.num == 0
    ensures x * Value(weight) == 0.0
  {
  }

  lemma {:induction false} ExistsEarlier(facts: seq<Fact>, fact: Fact, weights: seq<Rational>)
    requires |facts| < |weights|
    ensures var n, more := |facts|, facts + [fact];
            && ((exists k: nat :: k < n + 1 && more[k].strict && weights[k].num > 0) <==>
                 (exists k: nat :: k < n && facts[k].strict && weights[k].num > 0) || (fact.strict && weights[n].num > 0))
            && ((exists k: nat :: k < n + 1 && weights[k].num != 0 && more[k].sources != []) <==>
                 (exists k: nat :: k < n && weights[k].num != 0 && facts[k].sources != []) || (weights[n].num != 0 && fact.sources != []))
  {
    var n, more := |facts|, facts + [fact];
    assert forall k: nat | k < n :: more[k] == facts[k];
    assert more[n] == fact;
    if k: nat :| k < n && facts[k].strict && weights[k].num > 0 {
      assert more[k].strict;
    }
    if k: nat :| k < n && weights[k].num != 0 && facts[k].sources != [] {
      assert more[k].sources != [];
    }
  }

  lemma {:induction false} SummedMore(facts: seq<Fact>, fact: Fact, weights: seq<Rational>, identity: Polynomial, cited: seq<nat>, strict: bool, next: Polynomial)
    requires Summed(facts, weights, |facts|, identity, cited, strict) && ProperPoly(fact.poly) && PolyWithin(next, 64)
    requires |facts| < |weights| && Proper(weights[|facts|]) && weights[|facts|].num != 0
    requires WeightAdded(next, identity, fact.poly, fact.poly.Keys, weights[|facts|])
    ensures Summed(facts + [fact], weights, |facts| + 1, next, Included(cited, fact.sources), strict || (fact.strict && weights[|facts|].num > 0))
  {
    hide PartValue, Value, Included;
    var n, more := |facts|, facts + [fact];
    forall env: Assignment ensures Combination(more, weights, n + 1, env) == PolyValue(next, env) {
      CombinationExtends(facts, more, weights, n, env);
    }
    ExistsEarlier(facts, fact, weights);
    IncludedEmpty(cited, fact.sources);
  }

  lemma {:induction false} IncludedEmpty(into: seq<nat>, from: seq<nat>)
    ensures Included(into, from) == [] <==> into == [] && from == []
  {
    IncludedMembers(into, from);
    if into != [] {
      assert into[0] in Included(into, from);
    }
    if from != [] {
      assert from[0] in Included(into, from);
    }
  }

  /** All facts of a certificate summed: it is accepted exactly if they refute. */
  lemma {:induction false} SummedRefutes(facts: seq<Fact>, steps: seq<Step>, weights: seq<Rational>, premises: seq<Premise>, domain: Domain,
                                         identity: Polynomial, cited: seq<nat>, strict: bool)
    requires |facts| == |steps| == |weights| <= 1024 && Summed(facts, weights, |facts|, identity, cited, strict)
    requires forall k | 0 <= k < |facts| :: Derives(steps[k], premises, facts[..k], domain, facts[k]) && Weighable(facts[k], weights[k])
    ensures Valid(steps, weights, premises, domain) <==> strict && WithoutZeros(identity) == map[] && cited != []
  {
    hide Derives, Weighable, PolyValue, Oversized;
    if strict && WithoutZeros(identity) == map[] && cited != [] {
      forall env: Assignment ensures PolyValue(identity, env) == 0.0 {
        WithoutZerosValue(identity, env);
        ZeroEverywhere(env);
      }
      assert Refutes(facts, steps, weights, premises, domain);
    }
    if other :| Refutes(other, steps, weights, premises, domain) {
      DerivedPrefix(other, facts, steps, weights, premises, domain);
      assert other == facts;
      ZeroPolynomial(identity, 64);
    }
  }

  /** What was derived so far begins every refutation, so that a refused step or weight leaves none. */
  lemma {:induction false} NotValid(facts: seq<Fact>, steps: seq<Step>, weights: seq<Rational>, premises: seq<Premise>, domain: Domain, n: nat)
    requires |steps| == |weights| && n < |steps| && |facts| >= n
    requires forall k | 0 <= k < |facts| && k < |steps| :: Derives(steps[k], premises, facts[..k], domain, facts[k])
    requires (|facts| == n && forall fact :: !Derives(steps[n], premises, facts, domain, fact)) ||
             (|facts| == n + 1 && !Weighable(facts[n], weights[n]))
    ensures !Valid(steps, weights, premises, domain)
  {
    hide Derives, Weighable;
    if other :| Refutes(other, steps, weights, premises, domain) {
      DerivedPrefix(other, facts, steps, weights, premises, domain);
    }
  }

  /** A step over the limits leaves no refutation within them. */
  lemma {:induction false} NotComfortable(facts: seq<Fact>, steps: seq<Step>, weights: seq<Rational>, premises: seq<Premise>, domain: Domain, n: nat)
    requires |steps| == |weights| && n == |facts| < |steps|
    requires forall k | 0 <= k < |facts| :: Derives(steps[k], premises, facts[..k], domain, facts[k])
    requires Strained(steps[n], premises, facts) || forall fact | Derives(steps[n], premises, facts, domain, fact) :: Large(fact.poly)
    ensures forall other | Refutes(other, steps, weights, premises, domain) :: !Comfortable(other, steps, premises)
  {
    hide Derives, Weighable, Strained, Large;
    forall other | Refutes(other, steps, weights, premises, domain) ensures !Comfortable(other, steps, premises) {
      DerivedPrefix(other, facts, steps, weights, premises, domain);
      assert other[..n] == facts;
    }
  }

  /** An accepted certificate is valid, and its premises have no common model in the domain;
      unless a charge is refused, every valid certificate within the size limits is accepted. */
  method CheckCertificate(steps: seq<Step>, weights: seq<Rational>, premises: seq<Premise>, domain: Domain)
    returns (r: Outcome<seq<nat>>, ghost halted: bool)
    ensures r.Done? ==> Cites(premises, r.value) && r.value != []
    ensures r.Done? ==> forall env: Assignment :: !Models(premises, domain, r.value, env)
    ensures r.Done? ==> Valid(steps, weights, premises, domain)
    ensures r.Stop? && r.reason == Malformed ==> !Valid(steps, weights, premises, domain)
    ensures r.Stop? && !halted ==> forall facts | Refutes(facts, steps, weights, premises, domain) :: !Comfortable(facts, steps, premises)
  {
    hide Sound, Derives, Summed, Accumulated, Included, Models, WeightAdded;
    halted := false;
    if |steps| != |weights| || |steps| > 1024 {
      return Stop(Malformed), halted;
    }
    var work := new Work(200000, 0);
    var derived: seq<Fact> := [];
    var identity: Polynomial := map[];
    var cited: seq<nat> := [];
    var strict := false;
    SummedStart(weights);
    AccumulateStart(premises, domain);
    for i := 0 to |steps|
      invariant work.Valid() && AllSound(derived, premises, domain) && |derived| == i
      invariant Accumulated(identity, strict, premises, domain, cited)
      invariant Summed(derived, weights, i, identity, cited, strict)
      invariant forall k | 0 <= k < i :: Derives(steps[k], premises, derived[..k], domain, derived[k]) && Weighable(derived[k], weights[k])
    {
      var derivation := DeriveStep(steps[i], premises, derived, domain, work);
      if derivation.Stop? {
        halted := work.halted;
        if derivation.reason == Malformed {
          NotValid(derived, steps, weights, premises, domain, i);
        } else if !halted {
          NotComfortable(derived, steps, weights, premises, domain, i);
        }
        return Stop(derivation.reason), halted;
      }
      var fact := derivation.value;
      SoundProper(fact, premises, domain);
      ghost var before := derived;
      derived := derived + [fact];
      DerivesKept(before, fact, steps, premises, domain);
      var weight := weights[i];
      if weight.den <= 0 || (!fact.equality && weight.num < 0) || Oversized(weight) {
        NotValid(derived, steps, weights, premises, domain, i);
        return Stop(Malformed), halted;
      }
      if weight.num != 0 {
        SummedProper(before, weights, i, identity, cited, strict);
        DerivedWithin(steps[i], premises, before, domain, fact);
        var sum := AddWeighted(identity, fact.poly, weight, work);
        if sum.Stop? {
          return Stop(sum.reason), true;
        }
        var next := sum.value;
        var all := Include(cited, fact.sources);
        Accumulate(identity, strict, premises, domain, cited, fact, weight, next, all);
        SummedMore(before, fact, weights, identity, cited, strict, next);
        identity, cited, strict := next, all, strict || (fact.strict && weight.num > 0);
      } else {
        SummedNothing(before, fact, weights, identity, cited, strict);
      }
    }
    var charge := work.Tick(|identity| + 1);
    if charge.Halted? {
      return Stop(charge.reason), true;
    }
    SummedRefutes(derived, steps, weights, premises, domain, identity, cited, strict);
    if strict && WithoutZeros(identity) == map[] && cited != [] {
      NoModels(identity, premises, domain, cited);
      return Done(cited), halted;
    }
    return Stop(Malformed), halted;
  }

  lemma {:induction false} AccumulateStart(premises: seq<Premise>, domain: Domain)
    ensures Accumulated(map[], false, premises, domain, [])
  {
    forall env: Assignment ensures PolyValue(map[], env) == 0.0 {
      ZeroEverywhere(env);
    }
  }

  lemma {:induction false} DerivesKept(facts: seq<Fact>, fact: Fact, steps: seq<Step>, premises: seq<Premise>, domain: Domain)
    requires |facts| < |steps| && Derives(steps[|facts|], premises, facts, domain, fact)
    requires forall k | 0 <= k < |facts| :: Derives(steps[k], premises, facts[..k], domain, facts[k])
    ensures forall k | 0 <= k < |facts| + 1 :: Derives(steps[k], premises, (facts + [fact])[..k], domain, (facts + [fact])[k])
  {
    hide Derives;
    forall k | 0 <= k < |facts| + 1 ensures Derives(steps[k], premises, (facts + [fact])[..k], domain, (facts + [fact])[k]) {
      assert (facts + [fact])[..k] == facts[..k];
      assert facts[..|facts|] == facts;
    }
  }

  lemma {:induction false} SummedProper(facts: seq<Fact>, weights: seq<Rational>, n: nat, identity: Polynomial, cited: seq<nat>, strict: bool)
    requires Summed(facts, weights, n, identity, cited, strict)
    ensures ProperPoly(identity) && PolyWithin(identity, 64)
  {
  }

  lemma {:induction false} DerivedWithin(step: Step, premises: seq<Premise>, preceding: seq<Fact>, domain: Domain, fact: Fact)
    requires Derives(step, premises, preceding, domain, fact)
    ensures PolyWithin(fact.poly, 64)
  {
    hide Base;
  }

  lemma {:induction false} NoModels(identity: Polynomial, premises: seq<Premise>, domain: Domain, cited: seq<nat>)
    requires Accumulated(identity, true, premises, domain, cited) && WithoutZeros(identity) == map[]
    ensures Cites(premises, cited) && forall env: Assignment :: !Models(premises, domain, cited, env)
  {
    hide Models;
    forall env: Assignment ensures !Models(premises, domain, cited, env) {
      WithoutZerosValue(identity, env);
      ZeroEverywhere(env);
    }
  }
}
