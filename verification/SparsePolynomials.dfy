/** Sparse polynomials as maps from monomials to rationals, and their values. */
module SparsePolynomials {
  import opened Basics
  import opened Rationals

  datatype Power = Power(variable: nat, exponent: int)

  /** A product of powers in the order of its variables; with no power it is the number one. */
  type Monomial = seq<Power>
  type Polynomial = map<Monomial, Rational>
  type Assignment = nat -> real

  ghost predicate ProperPoly(p: Polynomial) {
    forall w | w in p :: Proper(p[w])
  }

  /** Variables strictly ascending, exponents from one to the bound. */
  predicate Within(w: Monomial, bound: nat) {
    && (forall k | 0 <= k < |w| :: 1 <= w[k].exponent <= bound)
    && (forall k | 1 <= k < |w| :: w[k - 1].variable < w[k].variable)
  }

  ghost function Pow(x: real, e: int): real
    decreases e
  {
    if e <= 0 then 1.0 else x * Pow(x, e - 1)
  }

  ghost function MonomialValue(w: Monomial, env: Assignment): real {
    if w == [] then 1.0 else Pow(env(w[0].variable), w[0].exponent) * MonomialValue(w[1..], env)
  }

  /** The value of the terms at the given keys. */
  ghost function PartValue(p: Polynomial, keys: set<Monomial>, env: Assignment): real
    requires ProperPoly(p) && keys <= p.Keys
  {
    if keys == {} then 0.0 else
    var w :| w in keys;
    Value(p[w]) * MonomialValue(w, env) + PartValue(p, keys - {w}, env)
  }

  ghost function PolyValue(p: Polynomial, env: Assignment): real
    requires ProperPoly(p)
  {
    PartValue(p, p.Keys, env)
  }

  ghost function TermValue(p: Polynomial, w: Monomial, env: Assignment): real
    requires ProperPoly(p) && w in p
  {
    Value(p[w]) * MonomialValue(w, env)
  }

  lemma {:induction false} PartEmpty(p: Polynomial, env: Assignment)
    requires ProperPoly(p)
    ensures PartValue(p, {}, env) == 0.0
  {
  }

  /** The sum does not depend on the order of the terms. */
  lemma {:induction false} PartRemove(p: Polynomial, keys: set<Monomial>, w: Monomial, env: Assignment)
    requires ProperPoly(p) && keys <= p.Keys && w in keys
    ensures PartValue(p, keys, env) == TermValue(p, w, env) + PartValue(p, keys - {w}, env)
    decreases |keys|
  {
    var u :| u in keys && PartValue(p, keys, env) == TermValue(p, u, env) + PartValue(p, keys - {u}, env);
    if u != w {
      PartRemove(p, keys - {u}, w, env);
      PartRemove(p, keys - {w}, u, env);
      assert keys - {u} - {w} == keys - {w} - {u};
    }
  }

  lemma {:induction false} PartAdd(p: Polynomial, keys: set<Monomial>, w: Monomial, env: Assignment)
    requires ProperPoly(p) && keys <= p.Keys && w in p && w !in keys
    ensures PartValue(p, keys + {w}, env) == PartValue(p, keys, env) + TermValue(p, w, env)
  {
    PartRemove(p, keys + {w}, w, env);
    assert keys + {w} - {w} == keys;
  }

  /** Terms outside the summed keys do not matter. */
  lemma {:induction false} PartAgrees(p: Polynomial, q: Polynomial, keys: set<Monomial>, env: Assignment)
    requires ProperPoly(p) && ProperPoly(q) && keys <= p.Keys && keys <= q.Keys
    requires forall w | w in keys :: p[w] == q[w]
    ensures PartValue(p, keys, env) == PartValue(q, keys, env)
    decreases |keys|
  {
    hide Value, MonomialValue;
    if keys != {} {
      var w :| w in keys;
      PartRemove(p, keys, w, env);
      PartRemove(q, keys, w, env);
      PartAgrees(p, q, keys - {w}, env);
    }
  }

  /** `p[w] += c`, creating the entry when it is missing. */
  function Bump(p: Polynomial, w: Monomial, c: Rational): Polynomial
    requires Proper(c) && (w in p ==> Proper(p[w]))
  {
    p[w := if w in p then Add(p[w], c) else c]
  }

  lemma {:induction false} BumpRest(p: Polynomial, w: Monomial, c: Rational, env: Assignment)
    requires ProperPoly(p) && Proper(c)
    ensures ProperPoly(Bump(p, w, c))
    ensures PolyValue(Bump(p, w, c), env) == TermValue(Bump(p, w, c), w, env) + PartValue(p, p.Keys - {w}, env)
    ensures PolyValue(p, env) == (if w in p then TermValue(p, w, env) else 0.0) + PartValue(p, p.Keys - {w}, env)
  {
    var q := Bump(p, w, c);
    PartRemove(q, q.Keys, w, env);
    assert q.Keys - {w} == p.Keys - {w};
    PartAgrees(p, q, p.Keys - {w}, env);
    if w in p {
      PartRemove(p, p.Keys, w, env);
    } else {
      assert p.Keys == p.Keys - {w};
    }
  }

  lemma {:induction false} BumpValue(p: Polynomial, w: Monomial, c: Rational, env: Assignment)
    requires ProperPoly(p) && Proper(c)
    ensures ProperPoly(Bump(p, w, c))
    ensures PolyValue(Bump(p, w, c), env) == PolyValue(p, env) + Value(c) * MonomialValue(w, env)
  {
    hide PartValue, PolyValue, Value, MonomialValue;
    BumpRest(p, w, c, env);
  }

  /** Dropping zero coefficients keeps the value. */
  function WithoutZeros(p: Polynomial): Polynomial {
    map w | w in p && p[w].num != 0 :: p[w]
  }

  lemma {:induction false} ZeroValue(q: Rational)
    requires Proper(q) && q.num == 0
    ensures Value(q) == 0.0
  {
  }

  lemma {:induction false} ZerosVanish(p: Polynomial, keys: set<Monomial>, env: Assignment)
    requires ProperPoly(p) && keys <= p.Keys && forall w | w in keys :: p[w].num == 0
    ensures PartValue(p, keys, env) == 0.0
    decreases |keys|
  {
    if keys != {} {
      hide PartValue, MonomialValue, Value;
      var w :| w in keys;
      PartRemove(p, keys, w, env);
      ZerosVanish(p, keys - {w}, env);
      ZeroValue(p[w]);
    }
  }

  lemma {:induction false} PartUnion(p: Polynomial, a: set<Monomial>, b: set<Monomial>, env: Assignment)
    requires ProperPoly(p) && a <= p.Keys && b <= p.Keys && a !! b
    ensures PartValue(p, a + b, env) == PartValue(p, a, env) + PartValue(p, b, env)
    decreases |b|
  {
    hide PartValue, TermValue;
    if b == {} {
      assert a + b == a;
      PartEmpty(p, env);
    } else {
      var w :| w in b;
      var rest := b - {w};
      PartRemove(p, b, w, env);
      PartUnion(p, a, rest, env);
      assert a + rest + {w} == a + b;
      PartAdd(p, a + rest, w, env);
    }
  }

  lemma {:induction false} WithoutZerosValue(p: Polynomial, env: Assignment)
    requires ProperPoly(p)
    ensures ProperPoly(WithoutZeros(p)) && PolyValue(WithoutZeros(p), env) == PolyValue(p, env)
  {
    var q := WithoutZeros(p);
    var zeros := p.Keys - q.Keys;
    ZerosVanish(p, zeros, env);
    PartUnion(p, q.Keys, zeros, env);
    assert q.Keys + zeros == p.Keys;
    PartAgrees(p, q, q.Keys, env);
  }

  lemma {:induction false} PowAdd(x: real, a: int, b: int)
    requires a >= 0 && b >= 0
    ensures Pow(x, a + b) == Pow(x, a) * Pow(x, b)
  {
    if a > 0 {
      PowAdd(x, a - 1, b);
    }
  }

  lemma {:induction false} MonomialAppend(w: Monomial, u: Power, env: Assignment)
    ensures MonomialValue(w + [u], env) == MonomialValue(w, env) * Pow(env(u.variable), u.exponent)
  {
    if w == [] {
      assert w + [u] == [u];
    } else {
      assert (w + [u])[1..] == w[1..] + [u];
      MonomialAppend(w[1..], u, env);
    }
  }

  lemma {:induction false} PrefixStep(w: Monomial, i: nat, env: Assignment)
    requires i < |w|
    ensures MonomialValue(w[..i + 1], env) == MonomialValue(w[..i], env) * Pow(env(w[i].variable), w[i].exponent)
  {
    assert w[..i + 1] == w[..i] + [w[i]];
    MonomialAppend(w[..i], w[i], env);
  }

  /** One step of a merge: the merged prefix denotes the product of both prefixes. */
  ghost predicate Merged(left: Monomial, i: nat, right: Monomial, j: nat, word: Monomial)
    requires i <= |left| && j <= |right|
  {
    forall env: Assignment ::
      MonomialValue(word, env) == MonomialValue(left[..i], env) * MonomialValue(right[..j], env)
  }

  lemma {:induction false} MergeLeftAt(left: Monomial, i: nat, right: Monomial, j: nat, word: Monomial, env: Assignment)
    requires i < |left| && j <= |right|
    requires MonomialValue(word, env) == MonomialValue(left[..i], env) * MonomialValue(right[..j], env)
    ensures MonomialValue(word + [left[i]], env) == MonomialValue(left[..i + 1], env) * MonomialValue(right[..j], env)
  {
    hide MonomialValue, Pow;
    MonomialAppend(word, left[i], env);
    PrefixStep(left, i, env);
  }

  lemma {:induction false} MergeLeft(left: Monomial, i: nat, right: Monomial, j: nat, word: Monomial)
    requires i < |left| && j <= |right| && Merged(left, i, right, j, word)
    ensures Merged(left, i + 1, right, j, word + [left[i]])
  {
    forall env: Assignment {
      MergeLeftAt(left, i, right, j, word, env);
    }
  }

  lemma {:induction false} MergeRightAt(left: Monomial, i: nat, right: Monomial, j: nat, word: Monomial, env: Assignment)
    requires i <= |left| && j < |right|
    requires MonomialValue(word, env) == MonomialValue(left[..i], env) * MonomialValue(right[..j], env)
    ensures MonomialValue(word + [right[j]], env) == MonomialValue(left[..i], env) * MonomialValue(right[..j + 1], env)
  {
    hide MonomialValue, Pow;
    MonomialAppend(word, right[j], env);
    PrefixStep(right, j, env);
  }

  lemma {:induction false} MergeRight(left: Monomial, i: nat, right: Monomial, j: nat, word: Monomial)
    requires i <= |left| && j < |right| && Merged(left, i, right, j, word)
    ensures Merged(left, i, right, j + 1, word + [right[j]])
  {
    forall env: Assignment {
      MergeRightAt(left, i, right, j, word, env);
    }
  }

  lemma {:induction false} JoinPowers(word: Monomial, v: nat, a: int, b: int, env: Assignment)
    requires a >= 0 && b >= 0
    ensures MonomialValue(word + [Power(v, a + b)], env) == MonomialValue(word + [Power(v, a)] + [Power(v, b)], env)
  {
    hide MonomialValue, Pow;
    MonomialAppend(word, Power(v, a + b), env);
    MonomialAppend(word + [Power(v, a)], Power(v, b), env);
    MonomialAppend(word, Power(v, a), env);
    PowAdd(env(v), a, b);
  }

  lemma {:induction false} MergeBoth(left: Monomial, i: nat, right: Monomial, j: nat, word: Monomial)
    requires i < |left| && j < |right| && Merged(left, i, right, j, word)
    requires left[i].variable == right[j].variable && left[i].exponent >= 0 && right[j].exponent >= 0
    ensures Merged(left, i + 1, right, j + 1, word + [Power(left[i].variable, left[i].exponent + right[j].exponent)])
  {
    hide MonomialValue, Pow;
    MergeLeft(left, i, right, j, word);
    MergeRight(left, i + 1, right, j, word + [left[i]]);
    forall env: Assignment {
      JoinPowers(word, left[i].variable, left[i].exponent, right[j].exponent, env);
    }
  }

  /** The word denotes the product of two others. */
  ghost predicate IsProductWord(word: Monomial, left: Monomial, right: Monomial) {
    forall env: Assignment :: MonomialValue(word, env) == MonomialValue(left, env) * MonomialValue(right, env)
  }

  /** The merged prefix is canonical and comes before what is left. */
  predicate Behind(word: Monomial, left: Monomial, i: nat, right: Monomial, j: nat) {
    && Within(word, 64)
    && (word != [] && i < |left| ==> word[|word| - 1].variable < left[i].variable)
    && (word != [] && j < |right| ==> word[|word| - 1].variable < right[j].variable)
  }

  lemma {:induction false} WithinSnoc(word: Monomial, u: Power, bound: nat)
    requires Within(word, bound) && 1 <= u.exponent <= bound && (word != [] ==> word[|word| - 1].variable < u.variable)
    ensures Within(word + [u], bound)
  {
  }

  /** The product of two canonical monomials. */
  method MergeMonomials(left: Monomial, right: Monomial) returns (word: Monomial)
    requires Within(left, 32) && Within(right, 32)
    ensures Within(word, 64) && IsProductWord(word, left, right)
  {
    hide Merged, MonomialValue;
    word := [];
    var i, j := 0, 0;
    MergeStart(left, right);
    while i < |left| || j < |right|
      invariant i <= |left| && j <= |right| && Merged(left, i, right, j, word) && Behind(word, left, i, right, j)
      decreases |left| - i + |right| - j
    {
      if j == |right| || (i < |left| && left[i].variable < right[j].variable) {
        MergeLeft(left, i, right, j, word);
        WithinSnoc(word, left[i], 64);
        word, i := word + [left[i]], i + 1;
      } else if i == |left| || right[j].variable < left[i].variable {
        MergeRight(left, i, right, j, word);
        WithinSnoc(word, right[j], 64);
        word, j := word + [right[j]], j + 1;
      } else {
        MergeBoth(left, i, right, j, word);
        var both := Power(left[i].variable, left[i].exponent + right[j].exponent);
        WithinSnoc(word, both, 64);
        word := word + [both];
        i, j := i + 1, j + 1;
      }
    }
    assert i == |left| && j == |right|;
    MergeEnd(left, right, word);
  }

  lemma {:induction false} MergeStart(left: Monomial, right: Monomial)
    ensures Merged(left, 0, right, 0, [])
  {
  }

  lemma {:induction false} MergeEnd(left: Monomial, right: Monomial, word: Monomial)
    requires Merged(left, |left|, right, |right|, word)
    ensures IsProductWord(word, left, right)
  {
    assert left[..|left|] == left && right[..|right|] == right;
  }
}
