/** Integer-valued monomials with rational coefficients only reach multiples of
    (gcd of numerators) / (lcm of denominators). */
module RationalLattice {
  import opened Basics
  import opened IntegerArithmetic
  import opened Rationals
  import opened SparsePolynomials

  datatype Domain = Domain(allInteger: bool, integers: seq<nat>)

  predicate IsInteger(domain: Domain, variable: nat) {
    domain.allInteger || variable in domain.integers
  }

  ghost predicate Whole(x: real) {
    x == x.Floor as real
  }

  /** Assignments that respect the declared integer variables. */
  ghost predicate Integral(domain: Domain, env: Assignment) {
    forall v: nat | IsInteger(domain, v) :: Whole(env(v))
  }

  function Steps(k: int, step: real): real {
    k as real * step
  }

  ghost predicate Multiple(x: real, step: real) {
    exists k: int :: x == Steps(k, step)
  }

  lemma {:induction false} PowWhole(x: real, e: int)
    requires Whole(x)
    ensures Whole(Pow(x, e))
    decreases e
  {
    if e <= 0 {
      assert 1.0 == 1 as real;
    } else {
      PowWhole(x, e - 1);
      var rest := Pow(x, e - 1);
      WholeProduct(x, rest);
      assert Pow(x, e) == x * rest;
    }
  }

  lemma {:induction false} WholeProduct(x: real, y: real)
    requires Whole(x) && Whole(y)
    ensures Whole(x * y)
  {
    var j, k := x.Floor, y.Floor;
    assert x * y == (j * k) as real;
  }

  lemma {:induction false} MonomialWhole(domain: Domain, w: Monomial, env: Assignment)
    requires Integral(domain, env) && forall k | 0 <= k < |w| :: IsInteger(domain, w[k].variable)
    ensures Whole(MonomialValue(w, env))
  {
    if w == [] {
      assert 1.0 == 1 as real;
    } else {
      assert IsInteger(domain, w[0].variable);
      PowWhole(env(w[0].variable), w[0].exponent);
      MonomialWhole(domain, w[1..], env);
      var head, tail := Pow(env(w[0].variable), w[0].exponent), MonomialValue(w[1..], env);
      WholeProduct(head, tail);
      assert MonomialValue(w, env) == head * tail;
    }
  }

  /** The coefficient lies on the lattice num/den. */
  ghost predicate OnLattice(c: Rational, num: int, den: int) {
    Divides(num, c.num) && Divides(c.den, den)
  }

  lemma {:induction false} OnLatticeMultiple(c: Rational, num: int, den: int)
    requires Proper(c) && den > 0 && OnLattice(c, num, den)
    ensures Multiple(Value(c), num as real / den as real)
  {
    var j :| c.num == num * j;
    var k :| den == c.den * k;
    if k <= 0 { NonPositive(c.den, k); }
    assert Value(c) == Steps(j * k, num as real / den as real);
  }

  lemma {:induction false} SumMultiple(p: Polynomial, keys: set<Monomial>, env: Assignment, step: real)
    requires ProperPoly(p) && keys <= p.Keys
    requires forall w | w in keys :: Multiple(Value(p[w]), step) && Whole(MonomialValue(w, env))
    ensures Multiple(PartValue(p, keys, env), step)
    decreases |keys|
  {
    hide Value, MonomialValue, Multiple, Whole;
    if keys == {} {
      ZeroMultiple(step);
    } else {
      var w :| w in keys;
      PartRemove(p, keys, w, env);
      SumMultiple(p, keys - {w}, env, step);
      var c, x, rest := Value(p[w]), MonomialValue(w, env), PartValue(p, keys - {w}, env);
      AddMultiple(c, x, rest, step);
      assert PartValue(p, keys, env) == c * x + rest;
    }
  }

  lemma {:induction false} ZeroMultiple(step: real)
    ensures Multiple(0.0, step)
  {
    assert 0.0 == Steps(0, step);
  }

  lemma {:induction false} AddMultiple(c: real, w: real, rest: real, step: real)
    requires Multiple(c, step) && Whole(w) && Multiple(rest, step)
    ensures Multiple(c * w + rest, step)
  {
    var i: int :| c == Steps(i, step);
    var k: int :| rest == Steps(k, step);
    assert c * w + rest == Steps(i * w.Floor + k, step);
  }

  /** Shrinking the numerator gcd and growing the denominator lcm keeps old coefficients on the lattice. */
  lemma {:induction false} LatticeCoarsens(c: Rational, num: int, den: int, num': int, den': int)
    requires OnLattice(c, num, den) && Divides(num', num) && Divides(den, den')
    ensures OnLattice(c, num', den')
  {
    DividesTransitive(num', num, c.num);
    DividesTransitive(c.den, den, den');
  }

  predicate AllInteger(domain: Domain, w: Monomial) {
    forall k | 0 <= k < |w| :: IsInteger(domain, w[k].variable)
  }

  /** Every coefficient lies on the lattice. */
  ghost predicate Lattice(terms: Polynomial, num: int, den: int) {
    forall w | w in terms :: OnLattice(terms[w], num, den)
  }

  /** Every lattice that holds the coefficients is too fine to be written down. */
  ghost predicate Fine(terms: Polynomial) {
    forall num: int, den: nat | den > 0 && Lattice(terms, num, den) :: Bits(den) > 4096
  }

  lemma {:induction false} DivisorSmaller(d: nat, a: nat)
    requires d > 0 && a > 0 && Divides(d, a)
    ensures d <= a
  {
    var k: int :| a == d * k;
    if k <= 0 { NonPositive(d, k); }
    MultipleOutside(d, k);
  }

  lemma {:induction false} BitsMonotone(m: nat, n: nat)
    requires m <= n
    ensures Bits(m) <= Bits(n)
    decreases n
  {
    if n >= 2 {
      BitsMonotone(m / 2, n / 2);
    }
  }

  /** A step such that every value under an integral assignment is a multiple of it: the
      coarsest lattice that holds all coefficients. */
  method RationalLatticeStep(terms: Polynomial, domain: Domain, work: Work) returns (r: Outcome<Option<Rational>>)
    requires ProperPoly(terms) && work.Valid()
    modifies work
    ensures work.Valid() && work.steps >= old(work.steps)
    ensures r.Done? && r.value.Some? ==> Proper(r.value.value) && r.value.value.num > 0
    ensures r.Done? && r.value.Some? ==>
              forall env: Assignment | Integral(domain, env) :: Multiple(PolyValue(terms, env), Value(r.value.value))
    ensures r.Done? && r.value.Some? ==> Lattice(terms, r.value.value.num, r.value.value.den)
    ensures r.Done? && r.value.Some? ==> forall num: int, den: int | Lattice(terms, num, den) ::
              Divides(num, r.value.value.num) && Divides(r.value.value.den, den)
    ensures r.Done? ==> (r.value.Some? <==>
              (forall w | w in terms :: AllInteger(domain, w)) && (exists w :: w in terms && terms[w].num != 0))
    ensures r.Stop? ==> r.reason == Exhausted && (work.halted || Fine(terms))
  {
    var numerator: int, denominator: int := 0, 1;
    var rest := terms.Keys;
    forall num: int ensures Divides(num, numerator) {
      DividesBy(num, 0, 0);
    }
    forall den: int ensures Divides(denominator, den) {
      DividesBy(1, den, den);
    }
    while rest != {}
      invariant work.Valid() && work.steps >= old(work.steps) && rest <= terms.Keys
      invariant numerator >= 0 && denominator > 0
      invariant forall w | w in terms.Keys - rest :: AllInteger(domain, w) && OnLattice(terms[w], numerator, denominator)
      invariant forall num: int, den: int | Lattice(terms, num, den) :: Divides(num, numerator) && Divides(denominator, den)
      invariant numerator == 0 <==> forall w | w in terms.Keys - rest :: terms[w].num == 0
    {
      var w :| w in rest;
      :- work.Tick(1 + |w|);
      if !AllInteger(domain, w) {
        return Done(None);
      }
      var c := terms[w];
      :- work.Tick(Bits(Abs(c.num)) + Bits(Abs(c.den)));
      var num', den' := Gcd(numerator, c.num), Lcm(denominator, c.den);
      GcdDivides(numerator, c.num);
      forall u | u in terms.Keys - rest ensures OnLattice(terms[u], num', den') {
        LatticeCoarsens(terms[u], numerator, denominator, num', den');
      }
      forall num: int, den: int | Lattice(terms, num, den) ensures Divides(num, num') && Divides(den', den) {
        GcdGreatest(num, numerator, c.num);
        LcmLeast(denominator, c.den, den);
      }
      if Bits(den') > 4096 {
        forall num: int, den: nat | den > 0 && Lattice(terms, num, den) ensures Bits(den) > 4096 {
          DivisorSmaller(den', den);
          BitsMonotone(den', den);
        }
        return Stop(Exhausted);
      }
      numerator, denominator, rest := num', den', rest - {w};
    }
    if numerator == 0 {
      return Done(None);
    }
    var step := Rational(numerator, denominator);
    forall env: Assignment | Integral(domain, env) ensures Multiple(PolyValue(terms, env), Value(step)) {
      forall w | w in terms ensures Multiple(Value(terms[w]), Value(step)) && Whole(MonomialValue(w, env)) {
        OnLatticeMultiple(terms[w], numerator, denominator);
        MonomialWhole(domain, w, env);
      }
      SumMultiple(terms, terms.Keys, env, Value(step));
    }
    return Done(Some(step));
  }

  /** The size of an integer in binary digits. */
  function Bits(n: nat): nat {
    if n < 2 then 1 else 1 + Bits(n / 2)
  }

  /** A positive multiple of a positive step is at least that step. */
  lemma {:induction false} PositiveMultiple(x: real, step: real)
    requires x > 0.0 && step > 0.0 && Multiple(x, step)
    ensures x - step >= 0.0
  {
    var k: int :| x == Steps(k, step);
    assert k >= 1;
    assert (k as real - 1.0) * step == x - step;
  }
}
