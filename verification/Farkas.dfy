/** Independent check of Farkas certificates over linear atoms, with a search for equality signs. */
module Farkas {
  import opened Basics
  import opened Terms

  type Env = nat -> real

  /** A linear form over variables, by term id, plus a constant. */
  datatype Form = Form(v: map<nat, real>, k: real)

  function Coef(v: map<nat, real>, x: nat): real { if x in v then v[x] else 0.0 }

  function Total(v: map<nat, real>, env: Env, n: nat): real {
    if n == 0 then 0.0 else Total(v, env, n - 1) + Coef(v, n - 1) * env(n - 1)
  }

  /** The form's value, its variables being below `n`. */
  function Value(f: Form, env: Env, n: nat): real { Total(f.v, env, n) + f.k }

  predicate InRange(f: Form, n: nat) { forall x | x in f.v :: x < n }

  function Bump(v: map<nat, real>, x: nat, c: real): map<nat, real> { v[x := Coef(v, x) + c] }

  /** Every coefficient of `w` is that of `v` plus `s` times that of `u`. */
  ghost predicate Combines(v: map<nat, real>, s: real, u: map<nat, real>, w: map<nat, real>) {
    forall x: nat :: CombinesAt(v, s, u, w, x)
  }

  ghost predicate CombinesAt(v: map<nat, real>, s: real, u: map<nat, real>, w: map<nat, real>, x: nat) {
    Coef(w, x) == Coef(v, x) + s * Coef(u, x)
  }

  lemma {:induction false} CombinedCoefficient(v: map<nat, real>, s: real, u: map<nat, real>, w: map<nat, real>, x: nat)
    requires CombinesAt(v, s, u, w, x)
    ensures Coef(w, x) == Coef(v, x) + s * Coef(u, x)
  {
  }

  /** Totals are linear in the coefficients. */
  lemma {:induction false} TotalLinear(v: map<nat, real>, s: real, u: map<nat, real>, w: map<nat, real>, env: Env, n: nat)
    requires Combines(v, s, u, w)
    ensures Total(w, env, n) == Total(v, env, n) + s * Total(u, env, n)
  {
    hide Coef, CombinesAt;
    if n > 0 {
      CombinedCoefficient(v, s, u, w, n - 1);
      TotalLinear(v, s, u, w, env, n - 1);
    }
  }

  lemma {:induction false} TotalBump(v: map<nat, real>, x: nat, c: real, env: Env, n: nat)
    ensures Total(Bump(v, x, c), env, n) == Total(v, env, n) + if x < n then c * env(x) else 0.0
  {
    hide Coef, Bump;
    if n > 0 {
      TotalBump(v, x, c, env, n - 1);
      BumpedCoefficient(v, x, c, n - 1);
      if x == n - 1 {
        OneMore(Total(v, env, x), Coef(v, x), c, env(x));
      }
    }
  }

  lemma {:induction false} BumpedCoefficient(v: map<nat, real>, x: nat, c: real, y: nat)
    ensures Coef(Bump(v, x, c), y) == if y == x then Coef(v, x) + c else Coef(v, y)
  {
  }

  lemma {:induction false} OneMore(t: real, a: real, c: real, e: real)
    ensures t + (a + c) * e == (t + a * e) + c * e
  {
  }

  lemma {:induction false} TotalEmpty(v: map<nat, real>, env: Env, n: nat)
    requires forall x: nat :: Coef(v, x) == 0.0
    ensures Total(v, env, n) == 0.0
  {
    if n > 0 {
      TotalEmpty(v, env, n - 1);
    }
  }

  /** The value of an arithmetic term; whatever is not arithmetic is opaque. */
  function Eval(ir: Dag, env: Env, id: nat): real
    requires Ordered(ir) && id < |ir|
    decreases id, 1
  {
    var c := ir[id].children;
    match ir[id].op
    case NumConst(q) => q
    case Add => SumOf(ir, env, id, c)
    case Sub => if c == [] then 0.0 else Eval(ir, env, c[0]) - SumOf(ir, env, id, c[1..])
    case Neg => -SumOf(ir, env, id, c)
    case Mul => ProductOf(ir, env, id, c)
    case _ => env(id)
  }

  predicate Under(ids: seq<nat>, bound: nat) { forall k | 0 <= k < |ids| :: ids[k] < bound }

  function SumOf(ir: Dag, env: Env, bound: nat, ids: seq<nat>): real
    requires Ordered(ir) && bound <= |ir| && Under(ids, bound)
    decreases bound, 0, |ids|
  {
    if ids == [] then 0.0 else SumOf(ir, env, bound, ids[..|ids| - 1]) + Eval(ir, env, ids[|ids| - 1])
  }

  function ProductOf(ir: Dag, env: Env, bound: nat, ids: seq<nat>): real
    requires Ordered(ir) && bound <= |ir| && Under(ids, bound)
    decreases bound, 0, |ids|
  {
    if ids == [] then 1.0 else ProductOf(ir, env, bound, ids[..|ids| - 1]) * Eval(ir, env, ids[|ids| - 1])
  }

  /** The variables of an arithmetic term. */
  function Vars(ir: Dag, id: nat): set<nat>
    requires Ordered(ir) && id < |ir|
    decreases id, 1
  {
    match ir[id].op
    case Variable(_) => {id}
    case Add => VarsOf(ir, id, ir[id].children)
    case Sub => VarsOf(ir, id, ir[id].children)
    case Neg => VarsOf(ir, id, ir[id].children)
    case Mul => VarsOf(ir, id, ir[id].children)
    case _ => {}
  }

  function VarsOf(ir: Dag, bound: nat, ids: seq<nat>): set<nat>
    requires Ordered(ir) && bound <= |ir| && Under(ids, bound)
    decreases bound, 0, |ids|
  {
    if ids == [] then {} else VarsOf(ir, bound, ids[..|ids| - 1]) + Vars(ir, ids[|ids| - 1])
  }

  /** Factors that mention a variable. */
  function Factors(ir: Dag, bound: nat, ids: seq<nat>): nat
    requires Ordered(ir) && bound <= |ir| && Under(ids, bound)
  {
    if ids == [] then 0 else
    Factors(ir, bound, ids[..|ids| - 1]) + if Vars(ir, ids[|ids| - 1]) == {} then 0 else 1
  }

  /** Constants, variables, sums, differences, negations, and products with at most one
      factor that mentions a variable. */
  predicate Linear(ir: Dag, id: nat)
    requires Ordered(ir) && id < |ir|
    decreases id, 1
  {
    var c := ir[id].children;
    match ir[id].op
    case Variable(_) => true
    case NumConst(_) => true
    case Add => AllLinear(ir, id, c)
    case Sub => c != [] && AllLinear(ir, id, c)
    case Neg => AllLinear(ir, id, c)
    case Mul => AllLinear(ir, id, c) && Factors(ir, id, c) <= 1
    case _ => false
  }

  predicate AllLinear(ir: Dag, bound: nat, ids: seq<nat>)
    requires Ordered(ir) && bound <= |ir| && Under(ids, bound)
    decreases bound, 0, |ids|
  {
    ids == [] || (AllLinear(ir, bound, ids[..|ids| - 1]) && Linear(ir, ids[|ids| - 1]))
  }

  lemma {:induction false} AllLinearMember(ir: Dag, bound: nat, ids: seq<nat>, k: nat)
    requires Ordered(ir) && bound <= |ir| && Under(ids, bound) && k < |ids| && AllLinear(ir, bound, ids)
    ensures Linear(ir, ids[k]) && AllLinear(ir, bound, ids[..k])
  {
    if k < |ids| - 1 {
      assert ids[..|ids| - 1][..k] == ids[..k];
      AllLinearMember(ir, bound, ids[..|ids| - 1], k);
    }
  }

  lemma {:induction false} FactorsGrow(ir: Dag, bound: nat, ids: seq<nat>, k: nat)
    requires Ordered(ir) && bound <= |ir| && Under(ids, bound) && k <= |ids|
    ensures Factors(ir, bound, ids[..k]) <= Factors(ir, bound, ids)
  {
    if k < |ids| {
      assert ids[..|ids| - 1][..k] == ids[..k];
      FactorsGrow(ir, bound, ids[..|ids| - 1], k);
    } else {
      assert ids[..k] == ids;
    }
  }

  /** The head of a difference apart from its tail. */
  lemma {:induction false} HeadTail(ir: Dag, bound: nat, ids: seq<nat>)
    requires Ordered(ir) && bound <= |ir| && Under(ids, bound) && ids != []
    ensures Under(ids[1..], bound)
    ensures AllLinear(ir, bound, ids) <==> Linear(ir, ids[0]) && AllLinear(ir, bound, ids[1..])
    ensures VarsOf(ir, bound, ids) == Vars(ir, ids[0]) + VarsOf(ir, bound, ids[1..])
  {
    var n := |ids| - 1;
    if n == 0 {
      assert ids[1..] == [] && ids[..0] == [];
    } else {
      assert ids[..n][1..] == ids[1..][..n - 1];
      HeadTail(ir, bound, ids[..n]);
    }
  }

  /** `after` is `before` plus `scale` times the value. */
  ghost predicate Added(n: nat, before: Form, after: Form, scale: real, value: Env -> real) {
    forall env: Env :: AddedAt(n, before, after, scale, value, env)
  }

  ghost predicate AddedAt(n: nat, before: Form, after: Form, scale: real, value: Env -> real, env: Env) {
    Value(after, env, n) == Value(before, env, n) + scale * value(env)
  }

  ghost function TermValue(ir: Dag, id: nat): Env -> real
    requires Ordered(ir) && id < |ir|
  {
    env => Eval(ir, env, id)
  }

  ghost function SumValue(ir: Dag, bound: nat, ids: seq<nat>): Env -> real
    requires Ordered(ir) && bound <= |ir| && Under(ids, bound)
  {
    env => SumOf(ir, env, bound, ids)
  }

  /** Two additions in a row add the sum; a scaled term adds with the scale folded in. */
  lemma {:induction false} AddedTwice(n: nat, before: Form, mid: Form, after: Form, s: real, v: Env -> real, w: Env -> real, total: Env -> real)
    requires Added(n, before, mid, s, v) && Added(n, mid, after, s, w)
    requires forall env: Env :: total(env) == v(env) + w(env)
    ensures Added(n, before, after, s, total)
  {
    hide Value;
    forall env: Env ensures AddedAt(n, before, after, s, total, env) {
      assert AddedAt(n, before, mid, s, v, env) && AddedAt(n, mid, after, s, w, env);
      assert s * (v(env) + w(env)) == s * v(env) + s * w(env);
    }
  }

  lemma {:induction false} AddedScaled(n: nat, before: Form, after: Form, s: real, v: Env -> real, t: real, w: Env -> real)
    requires Added(n, before, after, s, v) && forall env: Env :: s * v(env) == t * w(env)
    ensures Added(n, before, after, t, w)
  {
    hide Value;
    forall env: Env ensures AddedAt(n, before, after, t, w, env) {
      assert AddedAt(n, before, after, s, v, env);
    }
  }

  /** Accumulate `scale` times a term; refused exactly when the term is not linear. */
  method AddTerm(ir: Dag, id: nat, scale: real, out: Form) returns (ok: bool, form: Form)
    requires Ordered(ir) && id < |ir| && InRange(out, |ir|)
    ensures ok <==> Linear(ir, id)
    ensures ok ==> InRange(form, |ir|) && form.v.Keys == out.v.Keys + Vars(ir, id) && Added(|ir|, out, form, scale, TermValue(ir, id))
    decreases id, 1
  {
    hide Value, Added;
    form := out;
    var c := ir[id].children;
    match ir[id].op
    case Variable(_) =>
      form := Form(Bump(out.v, id, scale), out.k);
      VariableAdded(ir, id, scale, out);
      return true, form;
    case NumConst(q) =>
      form := Form(out.v, out.k + scale * q);
      ConstantAdded(ir, id, scale, out);
      return true, form;
    case Add =>
      ok, form := AddAll(ir, id, c, scale, out);
      if ok {
        AddedScaled(|ir|, out, form, scale, SumValue(ir, id, c), scale, TermValue(ir, id));
      }
    case Sub =>
      if c == [] {
        return false, form;
      }
      HeadTail(ir, id, c);
      ok, form := AddTerm(ir, c[0], scale, out);
      if ok {
        ghost var mid := form;
        ok, form := AddAll(ir, id, c[1..], -scale, form);
        if ok {
          DifferenceAdded(ir, id, scale, out, mid, form);
        }
      }
    case Neg =>
      ok, form := AddAll(ir, id, c, -scale, out);
      if ok {
        forall env: Env ensures -scale * SumValue(ir, id, c)(env) == scale * TermValue(ir, id)(env) {
          assert -scale * SumOf(ir, env, id, c) == scale * -SumOf(ir, env, id, c);
        }
        AddedScaled(|ir|, out, form, -scale, SumValue(ir, id, c), scale, TermValue(ir, id));
      }
    case Mul =>
      ok, form := AddProduct(ir, id, scale, out);
    case _ =>
      return false, form;
  }

  method AddAll(ir: Dag, bound: nat, ids: seq<nat>, scale: real, out: Form) returns (ok: bool, form: Form)
    requires Ordered(ir) && bound <= |ir| && Under(ids, bound) && InRange(out, |ir|)
    ensures ok <==> AllLinear(ir, bound, ids)
    ensures ok ==> InRange(form, |ir|) && form.v.Keys == out.v.Keys + VarsOf(ir, bound, ids) && Added(|ir|, out, form, scale, SumValue(ir, bound, ids))
    decreases bound, 0
  {
    hide Value, Added, Linear;
    form := out;
    NothingAdded(ir, bound, scale, out);
    for i := 0 to |ids|
      invariant AllLinear(ir, bound, ids[..i]) && InRange(form, |ir|) && form.v.Keys == out.v.Keys + VarsOf(ir, bound, ids[..i])
      invariant Added(|ir|, out, form, scale, SumValue(ir, bound, ids[..i]))
    {
      assert ids[..i + 1][..i] == ids[..i];
      ghost var before := form;
      ok, form := AddTerm(ir, ids[i], scale, form);
      if !ok {
        if AllLinear(ir, bound, ids) {
          AllLinearMember(ir, bound, ids, i);
        }
        return false, form;
      }
      AddedTwice(|ir|, out, before, form, scale, SumValue(ir, bound, ids[..i]), TermValue(ir, ids[i]), SumValue(ir, bound, ids[..i + 1]));
    }
    assert ids[..|ids|] == ids;
    return true, form;
  }

  lemma {:induction false} VariableAdded(ir: Dag, id: nat, scale: real, out: Form)
    requires Ordered(ir) && id < |ir| && ir[id].op.Variable?
    ensures Added(|ir|, out, Form(Bump(out.v, id, scale), out.k), scale, TermValue(ir, id))
  {
    hide Total;
    forall env: Env ensures AddedAt(|ir|, out, Form(Bump(out.v, id, scale), out.k), scale, TermValue(ir, id), env) {
      TotalBump(out.v, id, scale, env, |ir|);
    }
  }

  lemma {:induction false} ConstantAdded(ir: Dag, id: nat, scale: real, out: Form)
    requires Ordered(ir) && id < |ir| && ir[id].op.NumConst?
    ensures Added(|ir|, out, Form(out.v, out.k + scale * ir[id].op.number), scale, TermValue(ir, id))
  {
  }

  lemma {:induction false} NothingAdded(ir: Dag, bound: nat, scale: real, out: Form)
    requires Ordered(ir) && bound <= |ir|
    ensures Added(|ir|, out, out, scale, SumValue(ir, bound, []))
  {
  }

  lemma {:induction false} DifferenceAdded(ir: Dag, id: nat, scale: real, out: Form, mid: Form, form: Form)
    requires Ordered(ir) && id < |ir| && ir[id].op.Sub? && ir[id].children != [] && Under(ir[id].children[1..], id)
    requires Added(|ir|, out, mid, scale, TermValue(ir, ir[id].children[0]))
    requires Added(|ir|, mid, form, -scale, SumValue(ir, id, ir[id].children[1..]))
    ensures Added(|ir|, out, form, scale, TermValue(ir, id))
  {
    hide Value;
    var c := ir[id].children;
    forall env: Env ensures AddedAt(|ir|, out, form, scale, TermValue(ir, id), env) {
      assert AddedAt(|ir|, out, mid, scale, TermValue(ir, c[0]), env);
      assert AddedAt(|ir|, mid, form, -scale, SumValue(ir, id, c[1..]), env);
      var h, t := Eval(ir, env, c[0]), SumOf(ir, env, id, c[1..]);
      assert scale * h + -scale * t == scale * (h - t);
    }
  }

  /** Fold the constant factors of a product into the scale of the one that is not constant. */
  method AddProduct(ir: Dag, id: nat, scale: real, out: Form) returns (ok: bool, form: Form)
    requires Ordered(ir) && id < |ir| && ir[id].op.Mul? && InRange(out, |ir|)
    ensures ok <==> Linear(ir, id)
    ensures ok ==> InRange(form, |ir|) && form.v.Keys == out.v.Keys + Vars(ir, id) && Added(|ir|, out, form, scale, TermValue(ir, id))
    decreases id, 0
  {
    hide Value, Added, Linear, AllLinear, Factors, Vars, VarsOf, Folded;
    form := out;
    var c := ir[id].children;
    NoFactors(ir, id, scale);
    var coef := scale;
    var nonConst: Option<nat> := None;
    assert c[..0] == [];
    for i := 0 to |c|
      invariant AllLinear(ir, id, c[..i]) && Factors(ir, id, c[..i]) == (if nonConst.Some? then 1 else 0)
      invariant nonConst.Some? ==> nonConst.value < id && Linear(ir, nonConst.value)
      invariant VarsOf(ir, id, c[..i]) == if nonConst.Some? then Vars(ir, nonConst.value) else {}
      invariant Folded(ir, id, c[..i], scale, coef, nonConst)
    {
      FactorStep(ir, id, c, i);
      var linear, factor := AddTerm(ir, c[i], 1.0, Form(map[], 0.0));
      if !linear {
        if AllLinear(ir, id, c) {
          AllLinearMember(ir, id, c, i);
        }
        ProductLinear(ir, id);
        return false, form;
      }
      if factor.v == map[] {
        ConstantFactor(ir, id, c, i, scale, coef, nonConst, factor);
        coef := coef * factor.k;
      } else if nonConst.None? {
        NewFactor(ir, id, c, i, scale, coef);
        nonConst := Some(c[i]);
      } else {
        FactorsGrow(ir, id, c, i + 1);
        ProductLinear(ir, id);
        return false, form;
      }
    }
    assert c[..|c|] == c;
    ProductLinear(ir, id);
    if nonConst.None? {
      form := Form(out.v, out.k + coef);
      ProductConstant(ir, id, scale, coef, out);
      return true, form;
    }
    ok, form := AddTerm(ir, nonConst.value, coef, out);
    ProductFolded(ir, id, scale, coef, nonConst.value, out, form);
  }

  ghost predicate Folded(ir: Dag, id: nat, ids: seq<nat>, scale: real, coef: real, nonConst: Option<nat>)
    requires Ordered(ir) && id < |ir| && Under(ids, id) && (nonConst.Some? ==> nonConst.value < id)
  {
    forall env: Env :: FoldedAt(ir, id, ids, scale, coef, nonConst, env)
  }

  /** The product so far, scaled, is the folded coefficient times the factor set aside. */
  ghost predicate FoldedAt(ir: Dag, id: nat, ids: seq<nat>, scale: real, coef: real, nonConst: Option<nat>, env: Env)
    requires Ordered(ir) && id < |ir| && Under(ids, id) && (nonConst.Some? ==> nonConst.value < id)
  {
    scale * ProductOf(ir, env, id, ids) == if nonConst.Some? then coef * Eval(ir, env, nonConst.value) else coef
  }

  lemma {:induction false} ConstantFactor(ir: Dag, id: nat, c: seq<nat>, i: nat, scale: real, coef: real, nonConst: Option<nat>, factor: Form)
    requires Ordered(ir) && id < |ir| && Under(c, id) && i < |c| && (nonConst.Some? ==> nonConst.value < id)
    requires Folded(ir, id, c[..i], scale, coef, nonConst) && factor.v == map[]
    requires Added(|ir|, Form(map[], 0.0), factor, 1.0, TermValue(ir, c[i]))
    ensures Folded(ir, id, c[..i + 1], scale, coef * factor.k, nonConst)
  {
    hide Eval, Total;
    assert c[..i + 1][..i] == c[..i];
    var next, grown := c[..i + 1], coef * factor.k;
    forall env: Env ensures FoldedAt(ir, id, next, scale, grown, nonConst, env) {
      assert FoldedAt(ir, id, c[..i], scale, coef, nonConst, env);
      assert AddedAt(|ir|, Form(map[], 0.0), factor, 1.0, TermValue(ir, c[i]), env);
      TotalEmpty(map[], env, |ir|);
      var p, k := ProductOf(ir, env, id, c[..i]), factor.k;
      assert scale * (p * k) == (scale * p) * k;
      if nonConst.Some? {
        var e := Eval(ir, env, nonConst.value);
        assert (coef * e) * k == (coef * k) * e;
      }
    }
  }

  lemma {:induction false} NewFactor(ir: Dag, id: nat, c: seq<nat>, i: nat, scale: real, coef: real)
    requires Ordered(ir) && id < |ir| && Under(c, id) && i < |c| && Folded(ir, id, c[..i], scale, coef, None)
    ensures Folded(ir, id, c[..i + 1], scale, coef, Some(c[i]))
  {
    hide Eval;
    assert c[..i + 1][..i] == c[..i];
    var next, nonConst := c[..i + 1], Some(c[i]);
    forall env: Env ensures FoldedAt(ir, id, next, scale, coef, nonConst, env) {
      assert FoldedAt(ir, id, c[..i], scale, coef, None, env);
      var p, e := ProductOf(ir, env, id, c[..i]), Eval(ir, env, c[i]);
      assert scale * (p * e) == (scale * p) * e;
    }
  }

  lemma {:induction false} ProductLinear(ir: Dag, id: nat)
    requires Ordered(ir) && id < |ir| && ir[id].op.Mul?
    ensures Linear(ir, id) <==> AllLinear(ir, id, ir[id].children) && Factors(ir, id, ir[id].children) <= 1
    ensures Vars(ir, id) == VarsOf(ir, id, ir[id].children)
  {
  }

  lemma {:induction false} ProductFolded(ir: Dag, id: nat, scale: real, coef: real, factor: nat, out: Form, form: Form)
    requires Ordered(ir) && id < |ir| && ir[id].op.Mul? && factor < id && Folded(ir, id, ir[id].children, scale, coef, Some(factor))
    requires Added(|ir|, out, form, coef, TermValue(ir, factor))
    ensures Added(|ir|, out, form, scale, TermValue(ir, id))
  {
    hide Added;
    forall env: Env ensures coef * TermValue(ir, factor)(env) == scale * TermValue(ir, id)(env) {
      assert FoldedAt(ir, id, ir[id].children, scale, coef, Some(factor), env);
    }
    AddedScaled(|ir|, out, form, coef, TermValue(ir, factor), scale, TermValue(ir, id));
  }

  lemma {:induction false} NoFactors(ir: Dag, id: nat, scale: real)
    requires Ordered(ir) && id < |ir|
    ensures AllLinear(ir, id, []) && Factors(ir, id, []) == 0 && VarsOf(ir, id, []) == {} && Folded(ir, id, [], scale, scale, None)
  {
  }

  lemma {:induction false} FactorStep(ir: Dag, bound: nat, ids: seq<nat>, i: nat)
    requires Ordered(ir) && bound <= |ir| && Under(ids, bound) && i < |ids|
    ensures AllLinear(ir, bound, ids[..i + 1]) <==> AllLinear(ir, bound, ids[..i]) && Linear(ir, ids[i])
    ensures Factors(ir, bound, ids[..i + 1]) == Factors(ir, bound, ids[..i]) + if Vars(ir, ids[i]) == {} then 0 else 1
    ensures VarsOf(ir, bound, ids[..i + 1]) == VarsOf(ir, bound, ids[..i]) + Vars(ir, ids[i])
  {
    hide Linear, Vars;
    assert ids[..i + 1][..i] == ids[..i];
  }

  lemma {:induction false} ProductConstant(ir: Dag, id: nat, scale: real, coef: real, out: Form)
    requires Ordered(ir) && id < |ir| && ir[id].op.Mul? && Folded(ir, id, ir[id].children, scale, coef, None)
    ensures Added(|ir|, out, Form(out.v, out.k + coef), scale, TermValue(ir, id))
  {
    hide Total;
    var n, form, value := |ir|, Form(out.v, out.k + coef), TermValue(ir, id);
    forall env: Env ensures AddedAt(n, out, form, scale, value, env) {
      assert FoldedAt(ir, id, ir[id].children, scale, coef, None, env);
    }
  }

  /** The left side of an atom read as `>= 0`, `> 0` or `== 0`. */
  datatype Atom = Atom(form: Form, strict: bool, isEq: bool)

  predicate Comparison(ir: Dag, id: nat)
    requires id < |ir|
  {
    var op := ir[id].op;
    |ir[id].children| == 2 && (op.Lt? || op.Leq? || op.Gt? || op.Geq? || op.Eq?)
  }

  /** The comparison itself. */
  predicate Holds(ir: Dag, env: Env, id: nat)
    requires Ordered(ir) && id < |ir| && Comparison(ir, id)
  {
    var a, b := Eval(ir, env, ir[id].children[0]), Eval(ir, env, ir[id].children[1]);
    match ir[id].op
    case Lt => a < b
    case Leq => a <= b
    case Gt => a > b
    case Geq => a >= b
    case _ => a == b
  }

  predicate AtomHolds(atom: Atom, env: Env, n: nat) {
    var value := Value(atom.form, env, n);
    if atom.isEq then value == 0.0 else if atom.strict then value > 0.0 else value >= 0.0
  }

  /** The normalised atom holds exactly where the comparison does. */
  ghost predicate Normalises(ir: Dag, id: nat, atom: Atom)
    requires Ordered(ir) && id < |ir| && Comparison(ir, id)
  {
    forall env: Env :: AtomHolds(atom, env, |ir|) <==> Holds(ir, env, id)
  }

  lemma {:induction false} DifferenceForm(ir: Dag, big: nat, small: nat, mid: Form, form: Form)
    requires Ordered(ir) && big < |ir| && small < |ir|
    requires Added(|ir|, Form(map[], 0.0), mid, 1.0, TermValue(ir, big)) && Added(|ir|, mid, form, -1.0, TermValue(ir, small))
    ensures forall env: Env :: Value(form, env, |ir|) == Eval(ir, env, big) - Eval(ir, env, small)
  {
    hide Value, Eval;
    var nil, n := Form(map[], 0.0), |ir|;
    forall env: Env ensures Value(form, env, n) == Eval(ir, env, big) - Eval(ir, env, small) {
      assert AddedAt(n, nil, mid, 1.0, TermValue(ir, big), env);
      assert AddedAt(n, mid, form, -1.0, TermValue(ir, small), env);
      EmptyValue(env, n);
    }
  }

  lemma {:induction false} EmptyValue(env: Env, n: nat)
    ensures Value(Form(map[], 0.0), env, n) == 0.0
  {
    TotalEmpty(map[], env, n);
  }

  /** Normalise an atom; refused exactly when it is no comparison of two linear terms. */
  method AtomForm(ir: Dag, id: nat) returns (ok: bool, atom: Atom)
    requires Ordered(ir) && id < |ir|
    ensures ok <==> Comparison(ir, id) && Linear(ir, ir[id].children[0]) && Linear(ir, ir[id].children[1])
    ensures ok ==> InRange(atom.form, |ir|) && Normalises(ir, id, atom) && (atom.isEq <==> ir[id].op.Eq?) && (atom.strict ==> !atom.isEq)
  {
    hide Value, Added, Linear, Eval;
    atom := Atom(Form(map[], 0.0), false, false);
    if |ir[id].children| != 2 {
      return false, atom;
    }
    var a, b := ir[id].children[0], ir[id].children[1];
    var big, small, strict, isEq := a, b, false, false;
    match ir[id].op {
      case Leq => big, small := b, a;
      case Lt => big, small, strict := b, a, true;
      case Geq =>
      case Gt => strict := true;
      case Eq => isEq := true;
      case _ => return false, atom;
    }
    var first, mid := AddTerm(ir, big, 1.0, atom.form);
    if !first {
      return false, atom;
    }
    var second, form := AddTerm(ir, small, -1.0, mid);
    if !second {
      return false, atom;
    }
    DifferenceForm(ir, big, small, mid, form);
    return true, Atom(form, strict, isEq);
  }

  /** The weighted sum of the atoms' left sides. */
  function Combination(atoms: seq<Atom>, coeffs: seq<real>, env: Env, n: nat): real
    requires |atoms| == |coeffs|
  {
    if atoms == [] then 0.0 else
    var m := |atoms| - 1;
    Combination(atoms[..m], coeffs[..m], env, n) + coeffs[m] * Value(atoms[m].form, env, n)
  }

  predicate StrictUsed(atoms: seq<Atom>, coeffs: seq<real>)
    requires |atoms| == |coeffs|
  {
    exists i :: 0 <= i < |atoms| && atoms[i].strict && coeffs[i] != 0.0
  }

  ghost predicate Constant(atoms: seq<Atom>, coeffs: seq<real>, n: nat, k: real)
    requires |atoms| == |coeffs|
  {
    forall env: Env :: Combination(atoms, coeffs, env, n) == k
  }

  /** The combination is one constant, and a contradictory one. */
  ghost predicate Refutes(atoms: seq<Atom>, coeffs: seq<real>, n: nat)
    requires |atoms| == |coeffs|
  {
    exists k: real :: Constant(atoms, coeffs, n, k) && if StrictUsed(atoms, coeffs) then k <= 0.0 else k < 0.0
  }

  /** Inequalities keep their direction; equalities may be used either way. */
  ghost predicate Directed(atoms: seq<Atom>, coeffs: seq<real>)
    requires |atoms| == |coeffs|
  {
    forall i | 0 <= i < |atoms| :: atoms[i].isEq || coeffs[i] >= 0.0
  }

  lemma {:induction false} CombinationSign(atoms: seq<Atom>, coeffs: seq<real>, env: Env, n: nat)
    requires |atoms| == |coeffs| && Directed(atoms, coeffs) && forall i | 0 <= i < |atoms| :: AtomHolds(atoms[i], env, n)
    requires forall i | 0 <= i < |atoms| :: atoms[i].strict ==> !atoms[i].isEq
    ensures if StrictUsed(atoms, coeffs) then Combination(atoms, coeffs, env, n) > 0.0 else Combination(atoms, coeffs, env, n) >= 0.0
  {
    hide Value, StrictUsed;
    if atoms == [] {
      NothingStrict();
    } else {
      var m := |atoms| - 1;
      var fore, weights := atoms[..m], coeffs[..m];
      CombinationSign(fore, weights, env, n);
      StrictStep(atoms, coeffs);
    }
  }

  lemma {:induction false} NothingStrict()
    ensures !StrictUsed([], [])
  {
  }

  lemma {:induction false} StrictStep(atoms: seq<Atom>, coeffs: seq<real>)
    requires |atoms| == |coeffs| && atoms != []
    ensures var m := |atoms| - 1;
            StrictUsed(atoms, coeffs) <==> StrictUsed(atoms[..m], coeffs[..m]) || (atoms[m].strict && coeffs[m] != 0.0)
  {
    var m := |atoms| - 1;
    if i :| 0 <= i < |atoms| && atoms[i].strict && coeffs[i] != 0.0 {
      assert i < m ==> atoms[..m][i].strict && coeffs[..m][i] != 0.0;
    }
    if i :| 0 <= i < m && atoms[..m][i].strict && coeffs[..m][i] != 0.0 {
      assert atoms[i].strict && coeffs[i] != 0.0;
    }
  }

  /** Farkas: a contradictory combination leaves no common solution. */
  lemma {:induction false} FarkasSound(atoms: seq<Atom>, coeffs: seq<real>, n: nat, env: Env)
    requires |atoms| == |coeffs| && Directed(atoms, coeffs) && Refutes(atoms, coeffs, n)
    requires forall i | 0 <= i < |atoms| :: atoms[i].strict ==> !atoms[i].isEq
    ensures exists i :: 0 <= i < |atoms| && !AtomHolds(atoms[i], env, n)
  {
    if forall i | 0 <= i < |atoms| :: AtomHolds(atoms[i], env, n) {
      CombinationSign(atoms, coeffs, env, n);
    }
  }

  /** Add `s` times a form to the sum, coefficient by coefficient. */
  method AddScaled(sum: Form, s: real, form: Form) returns (next: Form)
    ensures next.k == sum.k + s * form.k && Combines(sum.v, s, form.v, next.v)
    ensures next.v.Keys == sum.v.Keys + form.v.Keys
  {
    hide PartlyAt, Partly, Combines, Bump, Coef;
    var v := sum.v;
    var rest := form.v.Keys;
    ghost var added: set<nat> := {};
    Untouched(sum.v, s, form.v);
    while rest != {}
      invariant v.Keys == sum.v.Keys + added && added == form.v.Keys - rest && rest <= form.v.Keys
      invariant Partly(sum.v, s, form.v, added, v)
    {
      var key :| key in rest;
      var step := s * form.v[key];
      PartlyMore(sum.v, s, form.v, added, v, key, step);
      BumpKeys(v, key, step);
      v := Bump(v, key, step);
      rest, added := rest - {key}, added + {key};
    }
    assert added == form.v.Keys;
    PartlyAll(sum.v, s, form.v, v);
    return Form(v, sum.k + s * form.k);
  }

  lemma {:induction false} BumpKeys(v: map<nat, real>, x: nat, c: real)
    ensures Bump(v, x, c).Keys == v.Keys + {x}
  {
  }

  /** The coefficients of the named variables have been added so far. */
  ghost predicate Partly(before: map<nat, real>, s: real, u: map<nat, real>, added: set<nat>, v: map<nat, real>) {
    forall x: nat :: PartlyAt(before, s, u, added, v, x)
  }

  ghost predicate PartlyAt(before: map<nat, real>, s: real, u: map<nat, real>, added: set<nat>, v: map<nat, real>, x: nat) {
    Coef(v, x) == Coef(before, x) + if x in added then s * Coef(u, x) else 0.0
  }

  lemma {:induction false} Untouched(v: map<nat, real>, s: real, u: map<nat, real>)
    ensures Partly(v, s, u, {}, v)
  {
  }

  lemma {:induction false} PartlyMore(before: map<nat, real>, s: real, u: map<nat, real>, added: set<nat>, v: map<nat, real>, key: nat, step: real)
    requires Partly(before, s, u, added, v) && key in u && key !in added && step == s * u[key]
    ensures Partly(before, s, u, added + {key}, Bump(v, key, step))
  {
    var next, more := Bump(v, key, step), added + {key};
    forall x: nat ensures PartlyAt(before, s, u, more, next, x) {
      assert PartlyAt(before, s, u, added, v, x);
    }
  }

  lemma {:induction false} PartlyAll(before: map<nat, real>, s: real, u: map<nat, real>, v: map<nat, real>)
    requires Partly(before, s, u, u.Keys, v)
    ensures Combines(before, s, u, v)
  {
    forall x: nat ensures CombinesAt(before, s, u, v, x) {
      assert PartlyAt(before, s, u, u.Keys, v, x);
    }
  }

  /** A nonzero coefficient makes the value vary. */
  lemma {:induction false} Varies(f: Form, x: nat, n: nat)
    requires x < n && Coef(f.v, x) != 0.0
    ensures Value(f, y => if y == x then 1.0 else 0.0, n) != Value(f, _ => 0.0, n)
  {
    TotalAt(f.v, x, 1.0, n);
    TotalAt(f.v, x, 0.0, n);
    TotalSame(f.v, y => if y == x then 0.0 else 0.0, _ => 0.0, n);
  }

  lemma {:induction false} TotalAt(v: map<nat, real>, x: nat, t: real, n: nat)
    ensures Total(v, y => if y == x then t else 0.0, n) == if x < n then Coef(v, x) * t else 0.0
  {
    if n > 0 {
      TotalAt(v, x, t, n - 1);
    }
  }

  lemma {:induction false} TotalSame(v: map<nat, real>, env: Env, other: Env, n: nat)
    requires forall y :: env(y) == other(y)
    ensures Total(v, env, n) == Total(v, other, n)
  {
    if n > 0 {
      TotalSame(v, env, other, n - 1);
    }
  }

  /** The sum form carries the combination. */
  ghost predicate Carries(sum: Form, atoms: seq<Atom>, coeffs: seq<real>, n: nat)
    requires |atoms| == |coeffs|
  {
    forall env: Env :: Value(sum, env, n) == Combination(atoms, coeffs, env, n)
  }

  lemma {:induction false} CarriesMore(sum: Form, next: Form, atoms: seq<Atom>, coeffs: seq<real>, i: nat, n: nat)
    requires |atoms| == |coeffs| && i < |atoms| && Carries(sum, atoms[..i], coeffs[..i], n)
    requires next.k == sum.k + coeffs[i] * atoms[i].form.k && Combines(sum.v, coeffs[i], atoms[i].form.v, next.v)
    ensures Carries(next, atoms[..i + 1], coeffs[..i + 1], n)
  {
    hide Total;
    var more, weights := atoms[..i + 1], coeffs[..i + 1];
    assert more[..i] == atoms[..i] && weights[..i] == coeffs[..i];
    forall env: Env ensures Value(next, env, n) == Combination(more, weights, env, n) {
      assert Value(sum, env, n) == Combination(atoms[..i], coeffs[..i], env, n);
      TotalLinear(sum.v, coeffs[i], atoms[i].form.v, next.v, env, n);
      var t, k, c := Total(atoms[i].form.v, env, n), atoms[i].form.k, coeffs[i];
      assert c * t + c * k == c * (t + k);
    }
  }

  lemma {:induction false} Verdict(sum: Form, atoms: seq<Atom>, coeffs: seq<real>, n: nat)
    requires |atoms| == |coeffs| && Carries(sum, atoms, coeffs, n) && InRange(sum, n)
    ensures Refutes(atoms, coeffs, n) <==>
            (forall x | x in sum.v :: sum.v[x] == 0.0) && if StrictUsed(atoms, coeffs) then sum.k <= 0.0 else sum.k < 0.0
  {
    var zero: Env := _ => 0.0;
    assert Value(sum, zero, n) == Combination(atoms, coeffs, zero, n);
    if forall x | x in sum.v :: sum.v[x] == 0.0 {
      forall env: Env ensures Combination(atoms, coeffs, env, n) == sum.k {
        assert Value(sum, env, n) == Combination(atoms, coeffs, env, n);
        TotalEmpty(sum.v, env, n);
      }
      assert Constant(atoms, coeffs, n, sum.k);
    } else {
      var x :| x in sum.v && sum.v[x] != 0.0;
      Varies(sum, x, n);
      var unit: Env := y => if y == x then 1.0 else 0.0;
      assert Value(sum, unit, n) == Combination(atoms, coeffs, unit, n);
    }
  }

  /** Does the combination cancel every variable and leave a contradiction? */
  method Contradicts(atoms: seq<Atom>, coeffs: seq<real>, n: nat) returns (result: bool)
    requires |atoms| == |coeffs| && forall i | 0 <= i < |atoms| :: InRange(atoms[i].form, n)
    ensures result <==> Refutes(atoms, coeffs, n)
  {
    hide Refutes, Carries, Value, Combines;
    var sum, anyStrict := Form(map[], 0.0), false;
    NothingCarried(atoms, coeffs, n);
    for i := 0 to |atoms|
      invariant Carries(sum, atoms[..i], coeffs[..i], n) && InRange(sum, n)
      invariant anyStrict <==> exists j :: 0 <= j < i && atoms[j].strict && coeffs[j] != 0.0
    {
      var next := AddScaled(sum, coeffs[i], atoms[i].form);
      CarriesMore(sum, next, atoms, coeffs, i, n);
      sum := next;
      if atoms[i].strict && coeffs[i] != 0.0 {
        anyStrict := true;
      }
    }
    assert atoms[..|atoms|] == atoms && coeffs[..|coeffs|] == coeffs;
    Verdict(sum, atoms, coeffs, n);
    var keys := Listing(sum.v.Keys);
    for i := 0 to |keys|
      invariant forall j | 0 <= j < i :: sum.v[keys[j]] == 0.0
    {
      if sum.v[keys[i]] != 0.0 {
        return false;
      }
    }
    return if anyStrict then sum.k <= 0.0 else sum.k < 0.0;
  }

  lemma {:induction false} NothingCarried(atoms: seq<Atom>, coeffs: seq<real>, n: nat)
    requires |atoms| == |coeffs|
    ensures Carries(Form(map[], 0.0), atoms[..0], coeffs[..0], n)
  {
    forall env: Env ensures Value(Form(map[], 0.0), env, n) == Combination(atoms[..0], coeffs[..0], env, n) {
      EmptyValue(env, n);
    }
  }

  predicate NegativeAt(mask: nat, j: nat) {
    if j == 0 then mask % 2 == 1 else NegativeAt(mask / 2, j - 1)
  }

  function Signs(mask: nat): nat -> bool { (j: nat) => NegativeAt(mask, j) }

  /** The mask whose bits are the given signs. */
  lemma {:induction false} MaskOf(signs: seq<bool>) returns (mask: nat)
    ensures mask < Pow2(|signs|) && forall j: nat | j < |signs| :: NegativeAt(mask, j) == signs[j]
  {
    if signs == [] {
      mask := 0;
    } else {
      var rest := MaskOf(signs[1..]);
      mask := 2 * rest + if signs[0] then 1 else 0;
      forall j: nat | j < |signs| ensures NegativeAt(mask, j) == signs[j] {
        if j > 0 {
          assert NegativeAt(rest, j - 1) == signs[1..][j - 1];
        }
      }
    }
  }

  /** The magnitudes, negated where the mask says so. */
  ghost predicate Signed(magnitudes: seq<real>, eqs: seq<nat>, negative: nat -> bool, coeffs: seq<real>) {
    && |coeffs| == |magnitudes|
    && (forall i: nat | i < |magnitudes| && i !in eqs :: coeffs[i] == magnitudes[i])
    && forall j: nat | j < |eqs| && eqs[j] < |coeffs| :: coeffs[eqs[j]] == if negative(j) then -magnitudes[eqs[j]] else magnitudes[eqs[j]]
  }

  method ApplySigns(magnitudes: seq<real>, eqs: seq<nat>, mask: nat) returns (coeffs: seq<real>)
    requires (forall j | 0 <= j < |eqs| :: eqs[j] < |magnitudes|) && Basics.Distinct(eqs)
    ensures Signed(magnitudes, eqs, Signs(mask), coeffs)
  {
    hide NegativeAt;
    coeffs := magnitudes;
    for j: nat := 0 to |eqs|
      invariant |coeffs| == |magnitudes|
      invariant forall i: nat | i < |magnitudes| && i !in eqs[..j] :: coeffs[i] == magnitudes[i]
      invariant forall l: nat | l < j :: coeffs[eqs[l]] == if NegativeAt(mask, l) then -magnitudes[eqs[l]] else magnitudes[eqs[l]]
    {
      assert eqs[..j + 1] == eqs[..j] + [eqs[j]];
      assert eqs[j] !in eqs[..j];
      if NegativeAt(mask, j) {
        coeffs := coeffs[eqs[j] := -coeffs[eqs[j]]];
      }
    }
    assert eqs[..|eqs|] == eqs;
  }

  /** The coefficients differ from the magnitudes only in the signs of equalities. */
  ghost predicate SignChoice(atoms: seq<Atom>, magnitudes: seq<real>, coeffs: seq<real>)
    requires |atoms| == |magnitudes|
  {
    && |coeffs| == |atoms|
    && forall i: nat | i < |atoms| :: coeffs[i] == magnitudes[i] || (atoms[i].isEq && coeffs[i] == -magnitudes[i])
  }

  ghost predicate Equalities(atoms: seq<Atom>, eqs: seq<nat>) {
    && Basics.Distinct(eqs) && (forall j | 0 <= j < |eqs| :: eqs[j] < |atoms|)
    && forall i: nat | i < |atoms| :: atoms[i].isEq <==> i in eqs
  }

  /** Every choice of signs has its mask. */
  lemma {:induction false} ChoiceHasMask(atoms: seq<Atom>, magnitudes: seq<real>, eqs: seq<nat>, coeffs: seq<real>) returns (mask: nat)
    requires |atoms| == |magnitudes| && Equalities(atoms, eqs) && SignChoice(atoms, magnitudes, coeffs)
    ensures mask < Pow2(|eqs|) && Signed(magnitudes, eqs, Signs(mask), coeffs)
  {
    var signs := seq(|eqs|, j requires 0 <= j < |eqs| => coeffs[eqs[j]] != magnitudes[eqs[j]]);
    mask := MaskOf(signs);
  }

  lemma {:induction false} SignedUnique(magnitudes: seq<real>, eqs: seq<nat>, negative: nat -> bool, a: seq<real>, b: seq<real>)
    requires Signed(magnitudes, eqs, negative, a) && Signed(magnitudes, eqs, negative, b)
    ensures a == b
  {
    forall i: nat | i < |a| ensures a[i] == b[i] {
      if i in eqs {
        var j: nat :| j < |eqs| && eqs[j] == i;
      }
    }
  }

  /** Try the sign of every equality both ways; found exactly when some choice refutes. */
  method SearchSigns(atoms: seq<Atom>, magnitudes: seq<real>, eqs: seq<nat>, n: nat) returns (found: Option<seq<real>>)
    requires |atoms| == |magnitudes| && Equalities(atoms, eqs) && forall i | 0 <= i < |atoms| :: InRange(atoms[i].form, n)
    ensures found.Some? ==> SignChoice(atoms, magnitudes, found.value) && Refutes(atoms, found.value, n)
    ensures found.None? ==> forall coeffs | SignChoice(atoms, magnitudes, coeffs) :: !Refutes(atoms, coeffs, n)
  {
    hide Refutes, NegativeAt;
    ghost var tried: seq<seq<real>> := [];
    var limit := Pow2(|eqs|);
    for mask: nat := 0 to limit
      invariant |tried| == mask
      invariant forall m: nat | m < mask ::
        Signed(magnitudes, eqs, Signs(m), tried[m]) && |tried[m]| == |atoms| && !Refutes(atoms, tried[m], n)
    {
      var coeffs := ApplySigns(magnitudes, eqs, mask);
      var contradicts := Contradicts(atoms, coeffs, n);
      if contradicts {
        return Some(coeffs);
      }
      tried := tried + [coeffs];
    }
    forall coeffs | SignChoice(atoms, magnitudes, coeffs) ensures !Refutes(atoms, coeffs, n) {
      var mask := ChoiceHasMask(atoms, magnitudes, eqs, coeffs);
      SignedUnique(magnitudes, eqs, Signs(mask), coeffs, tried[mask]);
    }
    return None;
  }

  /** Variables, integral constants, and sums, differences, products and negations of such. */
  predicate Safe(ir: Dag, id: nat)
    requires Ordered(ir) && id < |ir|
  {
    match ir[id].op
    case Variable(_) => true
    case NumConst(q) => q.Floor as real == q
    case Add => forall k: nat | k < |ir[id].children| :: Safe(ir, ir[id].children[k])
    case Sub => forall k: nat | k < |ir[id].children| :: Safe(ir, ir[id].children[k])
    case Mul => forall k: nat | k < |ir[id].children| :: Safe(ir, ir[id].children[k])
    case Neg => forall k: nat | k < |ir[id].children| :: Safe(ir, ir[id].children[k])
    case _ => false
  }

  datatype Literal = Literal(atom: nat, positive: bool)

  /** What becomes of a conflict: nothing certified, its multipliers passed on as they
      are, or multipliers that were checked. */
  datatype Emission = Skeleton | Unchecked(args: seq<real>) | Checked(coeffs: seq<real>)

  predicate IsComparison(op: Op) { op.Lt? || op.Leq? || op.Gt? || op.Geq? || op.Eq? }

  /** Asserted as it stands, and printable. */
  predicate Usable(ir: Dag, l: Literal, asserted: set<nat>)
    requires Ordered(ir) && l.atom < |ir|
  {
    && l.positive && l.atom in asserted && IsComparison(ir[l.atom].op)
    && forall k: nat | k < |ir[l.atom].children| :: Safe(ir, ir[l.atom].children[k])
  }

  predicate Normalisable(ir: Dag, id: nat)
    requires Ordered(ir) && id < |ir|
  {
    Comparison(ir, id) && Linear(ir, ir[id].children[0]) && Linear(ir, ir[id].children[1])
  }

  function Magnitude(q: real): real { if q < 0.0 then -q else q }

  /** Atoms and magnitudes of a conflict; its equalities in order. */
  ghost predicate Prepared(ir: Dag, lits: seq<Literal>, args: seq<real>, atoms: seq<Atom>, magnitudes: seq<real>, eqs: seq<nat>)
    requires Ordered(ir) && |lits| == |args| && forall i | 0 <= i < |lits| :: lits[i].atom < |ir|
  {
    && |atoms| == |magnitudes| == |lits| && Equalities(atoms, eqs)
    && forall i | 0 <= i < |lits| ::
         && InRange(atoms[i].form, |ir|) && magnitudes[i] == Magnitude(args[i])
         && Normalisable(ir, lits[i].atom) && Normalises(ir, lits[i].atom, atoms[i])
         && (atoms[i].isEq <==> ir[lits[i].atom].op.Eq?) && (atoms[i].strict ==> !atoms[i].isEq)
  }

  /** No assignment satisfies every literal's atom. */
  ghost predicate Infeasible(ir: Dag, lits: seq<Literal>)
    requires Ordered(ir) && forall i | 0 <= i < |lits| :: lits[i].atom < |ir| && Comparison(ir, lits[i].atom)
  {
    forall env: Env :: Fails(ir, lits, env)
  }

  ghost predicate Fails(ir: Dag, lits: seq<Literal>, env: Env)
    requires Ordered(ir) && forall i | 0 <= i < |lits| :: lits[i].atom < |ir| && Comparison(ir, lits[i].atom)
  {
    exists i :: 0 <= i < |lits| && !Holds(ir, env, lits[i].atom)
  }

  lemma {:induction false} AcceptedInfeasible(ir: Dag, lits: seq<Literal>, args: seq<real>, atoms: seq<Atom>, magnitudes: seq<real>, eqs: seq<nat>, coeffs: seq<real>)
    requires Ordered(ir) && |lits| == |args| && forall i | 0 <= i < |lits| :: lits[i].atom < |ir| && Comparison(ir, lits[i].atom)
    requires Prepared(ir, lits, args, atoms, magnitudes, eqs) && SignChoice(atoms, magnitudes, coeffs) && Refutes(atoms, coeffs, |ir|)
    ensures Infeasible(ir, lits)
  {
    hide Refutes, Normalisable, Comparison, Equalities;
    forall env: Env ensures Fails(ir, lits, env) {
      FarkasSound(atoms, coeffs, |ir|, env);
      var i :| 0 <= i < |atoms| && !AtomHolds(atoms[i], env, |ir|);
      assert Normalises(ir, lits[i].atom, atoms[i]);
    }
  }

  method Prepare(ir: Dag, lits: seq<Literal>, args: seq<real>) returns (ok: bool, atoms: seq<Atom>, magnitudes: seq<real>, eqs: seq<nat>)
    requires Ordered(ir) && |lits| == |args| && forall i | 0 <= i < |lits| :: lits[i].atom < |ir|
    ensures ok <==> forall i | 0 <= i < |lits| :: Normalisable(ir, lits[i].atom)
    ensures ok ==> Prepared(ir, lits, args, atoms, magnitudes, eqs)
  {
    hide Linear, Normalises, InRange;
    atoms, magnitudes, eqs := [], [], [];
    for i := 0 to |lits|
      invariant |atoms| == |magnitudes| == i && Equalities(atoms, eqs)
      invariant forall j | 0 <= j < i ::
        && InRange(atoms[j].form, |ir|) && magnitudes[j] == Magnitude(args[j])
        && Normalisable(ir, lits[j].atom) && Normalises(ir, lits[j].atom, atoms[j])
        && (atoms[j].isEq <==> ir[lits[j].atom].op.Eq?) && (atoms[j].strict ==> !atoms[j].isEq)
    {
      var fine, atom := AtomForm(ir, lits[i].atom);
      if !fine {
        return false, atoms, magnitudes, eqs;
      }
      atoms, magnitudes := atoms + [atom], magnitudes + [Magnitude(args[i])];
      if atom.isEq {
        eqs := eqs + [i];
      }
    }
    return true, atoms, magnitudes, eqs;
  }

  /** Only the signs of equality multipliers were chosen. */
  ghost predicate SameMagnitudes(ir: Dag, lits: seq<Literal>, args: seq<real>, coeffs: seq<real>)
    requires forall i | 0 <= i < |lits| :: lits[i].atom < |ir|
  {
    && |coeffs| == |lits| == |args|
    && forall i | 0 <= i < |lits| :: Magnitude(coeffs[i]) == Magnitude(args[i]) && (coeffs[i] >= 0.0 || ir[lits[i].atom].op.Eq?)
  }

  /** The treatment of a linear-arithmetic conflict.  Checked multipliers are a proof that the
      asserted atoms have no common real solution, and are found whenever a choice of
      equality signs makes the given magnitudes one. */
  method Certify(ir: Dag, lits: seq<Literal>, args: seq<real>, asserted: set<nat>) returns (r: Emission)
    requires Ordered(ir) && forall i | 0 <= i < |lits| :: lits[i].atom < |ir|
    ensures r.Checked? ==>
      (forall i | 0 <= i < |lits| :: Usable(ir, lits[i], asserted) && Comparison(ir, lits[i].atom)) && Infeasible(ir, lits)
    ensures r.Checked? ==> SameMagnitudes(ir, lits, args, r.coeffs)
    ensures r.Unchecked? ==> r.args == args && forall i | 0 <= i < |lits| :: !ir[lits[i].atom].op.Eq?
    ensures r.Skeleton? && lits != [] && |lits| == |args| && (forall i | 0 <= i < |lits| :: Usable(ir, lits[i], asserted) && Normalisable(ir, lits[i].atom)) ==>
      exists atoms, magnitudes, eqs :: Prepared(ir, lits, args, atoms, magnitudes, eqs) &&
        (|eqs| > 12 || forall coeffs | SignChoice(atoms, magnitudes, coeffs) :: !Refutes(atoms, coeffs, |ir|))
  {
    hide Linear, Safe, Refutes, Infeasible, Equalities;
    if lits == [] || |lits| != |args| {
      return Skeleton;
    }
    var hasEq := false;
    for i := 0 to |lits|
      invariant forall j | 0 <= j < i :: Usable(ir, lits[j], asserted)
      invariant hasEq <==> exists j :: 0 <= j < i && ir[lits[j].atom].op.Eq?
    {
      if !Usable(ir, lits[i], asserted) {
        return Skeleton;
      }
      if ir[lits[i].atom].op.Eq? {
        hasEq := true;
      }
    }
    if !hasEq {
      return Unchecked(args);
    }
    var ok, atoms, magnitudes, eqs := Prepare(ir, lits, args);
    if !ok || |eqs| > 12 {
      return Skeleton;
    }
    assert Prepared(ir, lits, args, atoms, magnitudes, eqs);
    var found := SearchSigns(atoms, magnitudes, eqs, |ir|);
    if found.None? {
      return Skeleton;
    }
    AcceptedInfeasible(ir, lits, args, atoms, magnitudes, eqs, found.value);
    return Checked(found.value);
  }
}
