/** A sparse polynomial that vanishes everywhere has no nonzero coefficient. */
module PolynomialIdentity {
  import opened IntegerArithmetic
  import opened Rationals
  import opened SparsePolynomials

  type Coefficients = Monomial -> real

  ghost function TermOf(c: Coefficients, w: Monomial, env: Assignment): real { c(w) * MonomialValue(w, env) }

  ghost function Sum(c: Coefficients, keys: set<Monomial>, env: Assignment): real {
    if keys == {} then 0.0 else
    var w :| w in keys;
    TermOf(c, w, env) + Sum(c, keys - {w}, env)
  }

  lemma {:induction false} SumRemove(c: Coefficients, keys: set<Monomial>, w: Monomial, env: Assignment)
    requires w in keys
    ensures Sum(c, keys, env) == TermOf(c, w, env) + Sum(c, keys - {w}, env)
    decreases |keys|
  {
    hide TermOf;
    var u :| u in keys && Sum(c, keys, env) == TermOf(c, u, env) + Sum(c, keys - {u}, env);
    if u != w {
      SumRemove(c, keys - {u}, w, env);
      SumRemove(c, keys - {w}, u, env);
      assert keys - {u} - {w} == keys - {w} - {u};
    }
  }

  /** Base powers of the Kronecker substitution. */
  function IntPow(b: nat, n: nat): nat {
    if n == 0 then 1 else b * IntPow(b, n - 1)
  }

  lemma {:induction false} IntPowPositive(b: nat, n: nat)
    requires b > 0
    ensures IntPow(b, n) > 0
  {
    if n > 0 {
      IntPowPositive(b, n - 1);
      assert b * IntPow(b, n - 1) > 0;
    }
  }

  lemma {:induction false} IntPowAdd(b: nat, m: nat, n: nat)
    ensures IntPow(b, m + n) == IntPow(b, m) * IntPow(b, n)
  {
    if m > 0 {
      IntPowAdd(b, m - 1, n);
      Grouped(b, IntPow(b, m - 1), IntPow(b, n), IntPow(b, m + n - 1));
    }
  }

  lemma {:induction false} Grouped(x: nat, y: nat, z: nat, p: nat)
    requires p == y * z
    ensures x * p == (x * y) * z
  {
  }

  /** The number whose digits in base `b` are the exponents. */
  function Weight(b: nat, w: Monomial): int {
    if w == [] then 0 else w[0].exponent * IntPow(b, w[0].variable) + Weight(b, w[1..])
  }

  predicate From(w: Monomial, m: nat) { forall k | 0 <= k < |w| :: m <= w[k].variable }

  /** The weight of a word over variables from `m` on is a multiple of the power at `m`. */
  lemma {:induction false} WeightMultiple(b: nat, w: Monomial, m: nat) returns (q: int)
    requires From(w, m) && forall k | 0 <= k < |w| :: w[k].exponent >= 1
    ensures Weight(b, w) == IntPow(b, m) * q && q >= 0
  {
    if w == [] {
      q := 0;
    } else {
      var rest := WeightMultiple(b, w[1..], m);
      var v, e := w[0].variable, w[0].exponent;
      IntPowAdd(b, m, v - m);
      q := e * IntPow(b, v - m) + rest;
      DigitMultiple(e, IntPow(b, m), IntPow(b, v - m), IntPow(b, v), rest);
    }
  }

  lemma {:induction false} DigitMultiple(e: int, p: nat, r: nat, product: nat, rest: int)
    requires product == p * r && e >= 0 && rest >= 0
    ensures e * product + p * rest == p * (e * r + rest) && e * r + rest >= 0
  {
    assert e * product == p * (e * r);
  }

  /** A word as its lowest digit and a multiple of the next power. */
  lemma {:induction false} LowestDigit(b: nat, bound: nat, w: Monomial) returns (q: int)
    requires w != [] && Within(w, bound)
    ensures Weight(b, w) == IntPow(b, w[0].variable) * (w[0].exponent + b * q)
    ensures Weight(b, w[1..]) == IntPow(b, w[0].variable) * (b * q)
  {
    var v := w[0].variable;
    TailAbove(w, bound);
    q := WeightMultiple(b, w[1..], v + 1);
    assert IntPow(b, v + 1) == b * IntPow(b, v);
    DigitSplit(IntPow(b, v), b, q, w[0].exponent, Weight(b, w[1..]));
  }

  lemma {:induction false} DigitSplit(p: nat, b: nat, q: int, e: int, rest: int)
    requires rest == (b * p) * q
    ensures rest == p * (b * q) && e * p + rest == p * (e + b * q)
  {
  }

  lemma {:induction false} TailAbove(w: Monomial, bound: nat)
    requires w != [] && Within(w, bound)
    ensures From(w[1..], w[0].variable + 1) && Within(w[1..], bound)
    decreases |w|
  {
    if |w| > 1 {
      assert w[0].variable < w[1].variable;
      TailAbove(w[1..], bound);
    }
  }

  lemma {:induction false} SameDigit(p: nat, b: nat, e: int, q: int, f: int, r: int)
    requires p > 0 && p * (e + b * q) == p * (f + b * r) && 0 <= e < b && 0 <= f < b
    ensures e == f && b * q == b * r
  {
    CancelLeft(p, e + b * q, f + b * r);
    assert b * (r - q) == e - f;
    MultipleOutside(b, r - q);
  }

  lemma {:induction false} WeightPositive(b: nat, bound: nat, w: Monomial)
    requires b > 0 && w != [] && Within(w, bound)
    ensures Weight(b, w) > 0
  {
    TailAbove(w, bound);
    var rest := WeightMultiple(b, w[1..], 0);
    IntPowPositive(b, w[0].variable);
    assert w[0].exponent * IntPow(b, w[0].variable) > 0;
  }

  /** Different words have different weights. */
  lemma {:induction false} WeightInjective(bound: nat, w: Monomial, u: Monomial)
    requires Within(w, bound) && Within(u, bound) && Weight(bound + 1, w) == Weight(bound + 1, u)
    ensures w == u
    decreases |w|
  {
    hide Weight;
    var b := bound + 1;
    if w == [] || u == [] {
      EmptyWeight(b);
      if w != [] {
        WeightPositive(b, bound, w);
      }
      if u != [] {
        WeightPositive(b, bound, u);
      }
    } else if w[0].variable < u[0].variable {
      LowerFirst(bound, w, u);
    } else if u[0].variable < w[0].variable {
      LowerFirst(bound, u, w);
    } else {
      var q := LowestDigit(b, bound, w);
      var r := LowestDigit(b, bound, u);
      IntPowPositive(b, w[0].variable);
      SameDigit(IntPow(b, w[0].variable), b, w[0].exponent, q, u[0].exponent, r);
      TailAbove(w, bound);
      TailAbove(u, bound);
      WeightInjective(bound, w[1..], u[1..]);
      assert w == [w[0]] + w[1..] && u == [u[0]] + u[1..];
    }
  }

  lemma {:induction false} EmptyWeight(b: nat)
    ensures Weight(b, []) == 0
  {
  }

  lemma {:induction false} LowerFirst(bound: nat, w: Monomial, u: Monomial)
    requires w != [] && u != [] && Within(w, bound) && Within(u, bound) && w[0].variable < u[0].variable
    ensures Weight(bound + 1, w) != Weight(bound + 1, u)
  {
    hide Weight;
    var b, v := bound + 1, w[0].variable;
    var q := LowestDigit(b, bound, w);
    TailAbove(u, bound);
    assert From(u, v + 1) by {
      assert u == [u[0]] + u[1..];
    }
    var r := WeightMultiple(b, u, v + 1);
    IntPowPositive(b, v);
    if Weight(b, w) == Weight(b, u) {
      assert IntPow(b, v + 1) == b * IntPow(b, v);
      DigitSplit(IntPow(b, v), b, r, 0, Weight(b, u));
      SameDigit(IntPow(b, v), b, w[0].exponent, q, 0, r);
    }
  }

  /** The substitution that turns a word into a power of `t`. */
  ghost function Kronecker(b: nat, t: real): Assignment {
    (v: nat) => Pow(t, IntPow(b, v))
  }

  lemma {:induction false} PowMultiply(t: real, a: nat, e: nat)
    ensures Pow(Pow(t, a), e) == Pow(t, e * a)
  {
    if e > 0 {
      PowMultiply(t, a, e - 1);
      assert e * a == a + (e - 1) * a;
      PowAdd(t, a, (e - 1) * a);
    }
  }

  lemma {:induction false} MonomialPower(b: nat, t: real, w: Monomial)
    requires forall k | 0 <= k < |w| :: w[k].exponent >= 1
    ensures Weight(b, w) >= 0 && MonomialValue(w, Kronecker(b, t)) == Pow(t, Weight(b, w))
  {
    hide Pow, IntPow;
    if w == [] {
      PowZero(t);
    } else {
      var v, e, k := w[0].variable, w[0].exponent, IntPow(b, w[0].variable);
      MonomialPower(b, t, w[1..]);
      DigitPower(t, k, e, Weight(b, w[1..]));
      assert Kronecker(b, t)(v) == Pow(t, k);
    }
  }

  lemma {:induction false} PowZero(t: real)
    ensures Pow(t, 0) == 1.0
  {
  }

  lemma {:induction false} DigitPower(t: real, k: nat, e: nat, rest: nat)
    ensures e * k + rest >= 0 && Pow(Pow(t, k), e) * Pow(t, rest) == Pow(t, e * k + rest)
  {
    hide Pow;
    var n := e * k;
    assert n >= 0;
    PowMultiply(t, k, e);
    PowAdd(t, n, rest);
  }

  lemma {:induction false} PowAtLeastOne(t: real, e: nat)
    requires t >= 1.0
    ensures Pow(t, e) >= 1.0
  {
    if e > 0 {
      PowAtLeastOne(t, e - 1);
      assert t * Pow(t, e - 1) >= Pow(t, e - 1);
    }
  }

  lemma {:induction false} PowMonotone(t: real, d: nat, e: nat)
    requires t >= 1.0 && d <= e
    ensures Pow(t, d) <= Pow(t, e)
  {
    if d < e {
      PowMonotone(t, d, e - 1);
      PowAtLeastOne(t, e - 1);
      assert t * Pow(t, e - 1) >= Pow(t, e - 1);
    }
  }

  function AbsReal(x: real): real { if x < 0.0 then -x else x }

  ghost function Size(c: Coefficients, w: Monomial): (r: real)
    ensures r >= 0.0
  {
    AbsReal(c(w))
  }

  /** The sum of the coefficients' magnitudes, in some order. */
  ghost function Magnitude(c: Coefficients, keys: set<Monomial>): (r: real)
    ensures r >= 0.0
  {
    if keys == {} then 0.0 else
    var w :| w in keys;
    Size(c, w) + Magnitude(c, keys - {w})
  }

  lemma {:induction false} MagnitudeSplits(c: Coefficients, keys: set<Monomial>) returns (w: Monomial)
    requires keys != {}
    ensures w in keys && Magnitude(c, keys) == Size(c, w) + Magnitude(c, keys - {w})
  {
    w :| w in keys && Magnitude(c, keys) == Size(c, w) + Magnitude(c, keys - {w});
  }

  ghost predicate AllWithin(keys: set<Monomial>, bound: nat) { forall w | w in keys :: Within(w, bound) }

  /** Words of weight at most `n` together contribute at most their magnitude times that power. */
  lemma {:induction false} SumBounded(bound: nat, c: Coefficients, keys: set<Monomial>, t: real, n: nat)
    requires t >= 1.0 && AllWithin(keys, bound) && forall w | w in keys :: Weight(bound + 1, w) <= n
    ensures AbsReal(Sum(c, keys, Kronecker(bound + 1, t))) <= Magnitude(c, keys) * Pow(t, n)
    decreases |keys|
  {
    hide Weight, MonomialValue, Pow, Sum, Magnitude, TermOf, Size, Kronecker;
    var env := Kronecker(bound + 1, t);
    if keys == {} {
      SumNothing(c, env);
      NoMagnitude(c, Pow(t, n));
    } else {
      var w := MagnitudeSplits(c, keys);
      SumRemove(c, keys, w, env);
      SumBounded(bound, c, keys - {w}, t, n);
      WordBounded(bound, w, t, n);
      TermBounded(c, w, env, Pow(t, n), Sum(c, keys - {w}, env), Magnitude(c, keys - {w}));
    }
  }

  lemma {:induction false} NoMagnitude(c: Coefficients, p: real)
    ensures Magnitude(c, {}) * p == 0.0
  {
  }

  lemma {:induction false} WordBounded(bound: nat, w: Monomial, t: real, n: nat)
    requires t >= 1.0 && Within(w, bound) && Weight(bound + 1, w) <= n
    ensures 0.0 <= MonomialValue(w, Kronecker(bound + 1, t)) <= Pow(t, n)
  {
    hide Weight, MonomialValue, Pow, Kronecker;
    MonomialPower(bound + 1, t, w);
    PowAtLeastOne(t, Weight(bound + 1, w));
    PowMonotone(t, Weight(bound + 1, w), n);
  }

  lemma {:induction false} TermBounded(c: Coefficients, w: Monomial, env: Assignment, p: real, rest: real, a: real)
    requires 0.0 <= MonomialValue(w, env) <= p && AbsReal(rest) <= a * p
    ensures AbsReal(TermOf(c, w, env) + rest) <= (Size(c, w) + a) * p
  {
    hide MonomialValue;
    ProductBounded(c(w), MonomialValue(w, env), p, rest, a, TermOf(c, w, env));
  }

  lemma {:induction false} ProductBounded(x: real, m: real, p: real, rest: real, a: real, term: real)
    requires 0.0 <= m <= p && AbsReal(rest) <= a * p && term == x * m
    ensures AbsReal(term + rest) <= (AbsReal(x) + a) * p
  {
    SignOut(x, m);
    var y := AbsReal(x);
    assert y * m <= y * p by { LargerFactor(y, m, p); }
    assert y * p + a * p == (y + a) * p;
  }

  lemma {:induction false} LargerFactor(y: real, m: real, p: real)
    requires y >= 0.0 && m <= p
    ensures y * m <= y * p
  {
    assert y * (p - m) >= 0.0;
  }

  /** One word outweighs all the others. */
  lemma {:induction false} Heaviest(bound: nat, keys: set<Monomial>) returns (top: Monomial)
    requires keys != {} && AllWithin(keys, bound)
    ensures top in keys && forall w | w in keys && w != top :: Weight(bound + 1, w) < Weight(bound + 1, top)
    decreases |keys|
  {
    hide Weight;
    var x :| x in keys;
    if keys == {x} {
      top := x;
    } else {
      var y := Heaviest(bound, keys - {x});
      if Weight(bound + 1, x) == Weight(bound + 1, y) {
        WeightInjective(bound, x, y);
      }
      top := if Weight(bound + 1, x) > Weight(bound + 1, y) then x else y;
      forall w | w in keys && w != top ensures Weight(bound + 1, w) < Weight(bound + 1, top) {
        assert w == x || w in keys - {x};
      }
    }
  }

  lemma {:induction false} Dominates(x: real, a: real, t: real, p: real, high: real, rest: real)
    requires x != 0.0 && a >= 0.0 && t == a / AbsReal(x) + 1.0 && p >= 1.0 && high == t * p && AbsReal(rest) <= a * p
    ensures x * high + rest != 0.0
  {
    var m := AbsReal(x);
    var s := a / m;
    assert m * s == a;
    assert m * high == a * p + m * p by { Expand(m, s, t, p, high, a); }
    assert m * p > 0.0;
    assert AbsReal(x * high) == m * high by {
      assert high >= 0.0 by { assert t >= 1.0; assert t * p >= 0.0; }
      SignOut(x, high);
    }
  }

  lemma {:induction false} Expand(m: real, s: real, t: real, p: real, high: real, a: real)
    requires t == s + 1.0 && high == t * p && m * s == a
    ensures m * high == a * p + m * p
  {
    assert high == s * p + p;
    assert m * high == m * (s * p) + m * p;
    assert m * (s * p) == (m * s) * p;
  }

  lemma {:induction false} SignOut(x: real, y: real)
    requires y >= 0.0
    ensures AbsReal(x * y) == AbsReal(x) * y
  {
    if x < 0.0 {
      assert (-x) * y >= 0.0;
      assert (-x) * y == -(x * y);
    } else {
      assert x * y >= 0.0;
    }
  }

  /** A sum with nonzero coefficients is nonzero somewhere. */
  lemma {:induction false} SomewhereNonzero(bound: nat, c: Coefficients, keys: set<Monomial>) returns (env: Assignment)
    requires keys != {} && AllWithin(keys, bound) && forall w | w in keys :: c(w) != 0.0
    ensures Sum(c, keys, env) != 0.0
  {
    hide Weight, MonomialValue, Pow, Sum, Magnitude, Kronecker;
    var top := Heaviest(bound, keys);
    var rest := keys - {top};
    var a := Magnitude(c, rest);
    var t := a / AbsReal(c(top)) + 1.0;
    assert t >= 1.0 by { assert a / AbsReal(c(top)) >= 0.0; }
    env := Kronecker(bound + 1, t);
    SumRemove(c, keys, top, env);
    MonomialPower(bound + 1, t, top);
    if rest == {} {
      PowAtLeastOne(t, Weight(bound + 1, top));
      assert Sum(c, rest, env) == 0.0 by { SumNothing(c, env); }
    } else {
      LighterExists(bound, rest, top);
      var n := Weight(bound + 1, top) - 1;
      SumBounded(bound, c, rest, t, n);
      PowAtLeastOne(t, n);
      PowNext(t, n);
      Dominates(c(top), a, t, Pow(t, n), Pow(t, n + 1), Sum(c, rest, env));
    }
  }

  lemma {:induction false} PowNext(t: real, n: nat)
    ensures Pow(t, n + 1) == t * Pow(t, n)
  {
  }

  lemma {:induction false} SumNothing(c: Coefficients, env: Assignment)
    ensures Sum(c, {}, env) == 0.0
  {
  }

  lemma {:induction false} LighterExists(bound: nat, rest: set<Monomial>, top: Monomial)
    requires rest != {} && AllWithin(rest, bound) && forall w | w in rest :: Weight(bound + 1, w) < Weight(bound + 1, top)
    ensures Weight(bound + 1, top) >= 1
  {
    var w :| w in rest;
    MonomialPower(bound + 1, 1.0, w);
  }

  /** Words with a zero coefficient do not count. */
  lemma {:induction false} SumZeros(c: Coefficients, keys: set<Monomial>, nonzero: set<Monomial>, env: Assignment)
    requires nonzero <= keys && forall w | w in keys - nonzero :: c(w) == 0.0
    ensures Sum(c, keys, env) == Sum(c, nonzero, env)
    decreases |keys - nonzero|
  {
    hide Sum, MonomialValue;
    if keys - nonzero == {} {
      assert keys == nonzero;
    } else {
      var w :| w in keys - nonzero;
      SumRemove(c, keys, w, env);
      assert keys - {w} - nonzero < keys - nonzero;
      SumZeros(c, keys - {w}, nonzero, env);
    }
  }

  /** The identity theorem: a sum over canonical words that vanishes everywhere has zero coefficients. */
  lemma {:induction false} VanishingSum(bound: nat, c: Coefficients, keys: set<Monomial>)
    requires AllWithin(keys, bound) && forall env: Assignment :: Sum(c, keys, env) == 0.0
    ensures forall w | w in keys :: c(w) == 0.0
  {
    hide Sum;
    var nonzero := set w | w in keys && c(w) != 0.0;
    if w :| w in nonzero {
      var env := SomewhereNonzero(bound, c, nonzero);
      SumZeros(c, keys, nonzero, env);
    } else {
      forall w | w in keys ensures c(w) == 0.0 {
        assert w !in nonzero;
      }
    }
  }

  ghost function Coefficient(p: Polynomial): Coefficients
    requires ProperPoly(p)
  {
    (w: Monomial) => if w in p && p[w].den != 0 then Value(p[w]) else 0.0
  }

  lemma {:induction false} PartIsSum(p: Polynomial, keys: set<Monomial>, env: Assignment)
    requires ProperPoly(p) && keys <= p.Keys
    ensures PartValue(p, keys, env) == Sum(Coefficient(p), keys, env)
    decreases |keys|
  {
    hide MonomialValue, Value, Sum, PartValue;
    if keys == {} {
      PartEmpty(p, env);
      SumNothing(Coefficient(p), env);
    } else {
      var w :| w in keys;
      PartRemove(p, keys, w, env);
      SumRemove(Coefficient(p), keys, w, env);
      PartIsSum(p, keys - {w}, env);
    }
  }

  /** Any set of words that covers the polynomial's sums up to its value. */
  lemma {:induction false} PolyIsSum(p: Polynomial, keys: set<Monomial>, env: Assignment)
    requires ProperPoly(p) && p.Keys <= keys
    ensures PolyValue(p, env) == Sum(Coefficient(p), keys, env)
  {
    hide Sum, PartValue;
    PartIsSum(p, p.Keys, env);
    SumZeros(Coefficient(p), keys, p.Keys, env);
  }

  lemma {:induction false} SumDifference(c: Coefficients, d: Coefficients, keys: set<Monomial>, env: Assignment)
    ensures Sum((w: Monomial) => c(w) - d(w), keys, env) == Sum(c, keys, env) - Sum(d, keys, env)
    decreases |keys|
  {
    hide Sum, MonomialValue;
    var e: Coefficients := (w: Monomial) => c(w) - d(w);
    if keys == {} {
      SumNothing(c, env);
      SumNothing(d, env);
      SumNothing(e, env);
    } else {
      var w :| w in keys;
      SumRemove(c, keys, w, env);
      SumRemove(d, keys, w, env);
      SumRemove(e, keys, w, env);
      SumDifference(c, d, keys - {w}, env);
      Distributes(c(w), d(w), MonomialValue(w, env));
    }
  }

  lemma {:induction false} Distributes(x: real, y: real, m: real)
    ensures (x - y) * m == x * m - y * m
  {
  }

  ghost predicate PolyWithin(p: Polynomial, bound: nat) { forall w | w in p :: Within(w, bound) }

  /** Polynomials over canonical words with the same value everywhere have the same coefficients. */
  lemma {:induction false} SameCoefficients(p: Polynomial, q: Polynomial, bound: nat)
    requires ProperPoly(p) && ProperPoly(q) && PolyWithin(p, bound) && PolyWithin(q, bound)
    requires forall env: Assignment :: PolyValue(p, env) == PolyValue(q, env)
    ensures forall w :: Coefficient(p)(w) == Coefficient(q)(w)
  {
    hide Sum, PolyValue;
    var keys := p.Keys + q.Keys;
    var c, d := Coefficient(p), Coefficient(q);
    var e: Coefficients := (w: Monomial) => c(w) - d(w);
    forall env: Assignment ensures Sum(e, keys, env) == 0.0 {
      PolyIsSum(p, keys, env);
      PolyIsSum(q, keys, env);
      SumDifference(c, d, keys, env);
    }
    VanishingSum(bound, e, keys);
    forall w ensures c(w) == d(w) {
      if w in keys {
        assert e(w) == 0.0;
      }
    }
  }

  /** The zero function is the polynomial without nonzero coefficients. */
  lemma {:induction false} ZeroPolynomial(p: Polynomial, bound: nat)
    requires ProperPoly(p) && PolyWithin(p, bound) && forall env: Assignment :: PolyValue(p, env) == 0.0
    ensures WithoutZeros(p) == map[]
  {
    hide PolyValue;
    var zero: Polynomial := map[];
    forall env: Assignment ensures PolyValue(zero, env) == 0.0 {
      ZeroEverywhere(env);
    }
    SameCoefficients(p, zero, bound);
    forall w | w in p ensures p[w].num == 0 {
      assert Coefficient(p)(w) == 0.0;
      ZeroNumerator(p[w]);
    }
  }

  lemma {:induction false} ZeroEverywhere(env: Assignment)
    ensures PolyValue(map[], env) == 0.0
  {
  }

  lemma {:induction false} ZeroNumerator(q: Rational)
    requires Proper(q) && Value(q) == 0.0
    ensures q.num == 0
  {
    assert Value(q) * q.den as real == q.num as real;
  }

  /** Canonical words, nonzero coefficients in lowest terms. */
  ghost predicate Normal(p: Polynomial, bound: nat) {
    PolyWithin(p, bound) && forall w | w in p :: p[w].num != 0 && Lowest(p[w])
  }

  /** A normal polynomial is determined by its values. */
  lemma {:induction false} SamePolynomial(p: Polynomial, q: Polynomial, bound: nat)
    requires Normal(p, bound) && Normal(q, bound) && ProperPoly(p) && ProperPoly(q)
    requires forall env: Assignment :: PolyValue(p, env) == PolyValue(q, env)
    ensures p == q
  {
    hide PolyValue, Value;
    SameCoefficients(p, q, bound);
    forall w ensures (w in p <==> w in q) && (w in p ==> p[w] == q[w]) {
      assert Coefficient(p)(w) == Coefficient(q)(w);
      if w in p {
        NonzeroValue(p[w]);
      }
      if w in q {
        NonzeroValue(q[w]);
      }
      if w in p && w in q {
        LowestUnique(p[w], q[w]);
      }
    }
  }

  lemma {:induction false} NonzeroValue(q: Rational)
    requires Proper(q) && q.num != 0
    ensures Value(q) != 0.0
  {
    if Value(q) == 0.0 {
      ZeroNumerator(q);
    }
  }
}
