/** Exact integer certificates: Farkas combinations, gcd tightening with floor
    rounding, and n-variable divisibility. */
module PresburgerCertificate {
  import opened IntegerArithmetic

  const NULL_VAR: nat := 0xFFFF_FFFF

  type Coefficients = map<nat, int>
  type Point = nat -> int

  /** sum(coefficients[v] * v) <= bound */
  datatype Inequality = Inequality(coefficients: Coefficients, bound: int)

  predicate Canonical(c: Coefficients) {
    forall v | v in c :: v != NULL_VAR && c[v] != 0
  }

  /** The linear form restricted to some of its variables. */
  ghost function PartSum(c: Coefficients, keys: set<nat>, x: Point): int
    requires keys <= c.Keys
  {
    if keys == {} then 0 else
    var v :| v in keys;
    c[v] * x(v) + PartSum(c, keys - {v}, x)
  }

  ghost function Linear(c: Coefficients, x: Point): int {
    PartSum(c, c.Keys, x)
  }

  ghost predicate Holds(q: Inequality, x: Point) {
    Linear(q.coefficients, x) <= q.bound
  }

  lemma {:induction false} SumRemove(c: Coefficients, keys: set<nat>, v: nat, x: Point)
    requires keys <= c.Keys && v in keys
    ensures PartSum(c, keys, x) == c[v] * x(v) + PartSum(c, keys - {v}, x)
    decreases |keys|
  {
    var u :| u in keys && PartSum(c, keys, x) == c[u] * x(u) + PartSum(c, keys - {u}, x);
    if u != v {
      SumRemove(c, keys - {u}, v, x);
      SumRemove(c, keys - {v}, u, x);
      assert keys - {u} - {v} == keys - {v} - {u};
    }
  }

  lemma {:induction false} SumAdd(c: Coefficients, keys: set<nat>, v: nat, x: Point)
    requires keys <= c.Keys && v in c && v !in keys
    ensures PartSum(c, keys + {v}, x) == PartSum(c, keys, x) + c[v] * x(v)
  {
    SumRemove(c, keys + {v}, v, x);
    assert keys + {v} - {v} == keys;
  }

  /** Two forms whose terms are in a fixed proportion are in that proportion. */
  lemma {:induction false} SumProportional(c: Coefficients, d: Coefficients, k: int, keys: set<nat>, x: Point, y: Point)
    requires keys <= c.Keys && keys <= d.Keys
    requires forall v | v in keys :: c[v] * x(v) == k * (d[v] * y(v))
    ensures PartSum(c, keys, x) == k * PartSum(d, keys, y)
    decreases |keys|
  {
    if keys != {} {
      var v :| v in keys;
      SumRemove(c, keys, v, x);
      SumRemove(d, keys, v, y);
      SumProportional(c, d, k, keys - {v}, x, y);
      DistributeInt(k, d[v] * y(v), PartSum(d, keys - {v}, y));
    }
  }

  lemma {:induction false} DistributeInt(k: int, a: int, b: int)
    ensures k * (a + b) == k * a + k * b
  {
  }

  /** Coefficients of one variable add up. */
  function Bump(c: Coefficients, v: nat, a: int): Coefficients {
    c[v := if v in c then c[v] + a else a]
  }

  lemma {:induction false} BumpRest(c: Coefficients, v: nat, a: int, x: Point)
    ensures Linear(Bump(c, v, a), x) == Bump(c, v, a)[v] * x(v) + PartSum(c, c.Keys - {v}, x)
    ensures Linear(c, x) == (if v in c then c[v] * x(v) else 0) + PartSum(c, c.Keys - {v}, x)
  {
    var d := Bump(c, v, a);
    SumRemove(d, d.Keys, v, x);
    assert d.Keys - {v} == c.Keys - {v};
    SumProportional(d, c, 1, c.Keys - {v}, x, x);
    if v in c {
      SumRemove(c, c.Keys, v, x);
    } else {
      assert c.Keys == c.Keys - {v};
    }
  }

  lemma {:induction false} BumpSum(c: Coefficients, v: nat, a: int, x: Point)
    ensures Linear(Bump(c, v, a), x) == Linear(c, x) + a * x(v)
  {
    hide Linear, PartSum;
    BumpRest(c, v, a, x);
    if v in c {
      DistributeInt(x(v), c[v], a);
    }
  }

  /** The common divisor that every common divisor divides. */
  ghost predicate IsGcd(c: Coefficients, g: nat) {
    && (forall v | v in c :: Divides(g, c[v]))
    && forall d: int | CommonDivisor(c, d) :: Divides(d, g)
  }

  ghost predicate CommonDivisor(c: Coefficients, d: int) {
    forall v | v in c :: Divides(d, c[v])
  }

  /** There is only one. */
  lemma {:induction false} GcdUnique(c: Coefficients, g: nat, h: nat)
    requires IsGcd(c, g) && IsGcd(c, h)
    ensures g == h
  {
    assert CommonDivisor(c, g) && CommonDivisor(c, h);
    DividesBoth(g, h);
  }

  lemma {:induction false} DividesBoth(g: nat, h: nat)
    requires Divides(g, h) && Divides(h, g)
    ensures g == h
  {
    var j :| h == g * j;
    var k :| g == h * k;
    if g > 0 && h > 0 {
      if j <= 0 { NonPositive(g, j); }
      if k <= 0 { NonPositive(h, k); }
      Grows(g, j);
      Grows(h, k);
    }
  }

  lemma {:induction false} Grows(g: nat, j: int)
    requires g > 0 && j >= 1
    ensures g * j >= g
  {
  }

  /** The gcd of all coefficients, with an integer point where the form attains it. */
  method CoefficientGcd(c: Coefficients) returns (gcd: nat, ghost attained: Point)
    ensures forall v | v in c :: Divides(gcd, c[v])
    ensures Linear(c, attained) == gcd
    ensures gcd == 0 <==> forall v | v in c :: c[v] == 0
    ensures IsGcd(c, gcd)
  {
    gcd := 0;
    attained := _ => 0;
    var rest := c.Keys;
    assert c.Keys - rest == {};
    forall d: int ensures Divides(d, 0) {
      DividesBy(d, 0, 0);
    }
    while rest != {}
      invariant rest <= c.Keys
      invariant forall v | v in c.Keys - rest :: Divides(gcd, c[v])
      invariant PartSum(c, c.Keys - rest, attained) == gcd
      invariant forall d: int | CommonDivisor(c, d) :: Divides(d, gcd)
      invariant gcd == 0 <==> forall v | v in c.Keys - rest :: c[v] == 0
    {
      var v :| v in rest;
      ghost var done := c.Keys - rest;
      ghost var s, t := Bezout(gcd, c[v]);
      GcdDivides(gcd, c[v]);
      forall u | u in done ensures Divides(Gcd(gcd, c[v]), c[u]) {
        DividesTransitive(Gcd(gcd, c[v]), gcd, c[u]);
      }
      forall d: int | CommonDivisor(c, d) ensures Divides(d, Gcd(gcd, c[v])) {
        GcdGreatest(d, gcd, c[v]);
      }
      ghost var next := Combined(attained, v, s, t);
      WitnessStep(c, done, v, attained, s, t);
      assert c.Keys - (rest - {v}) == done + {v};
      gcd, rest, attained := Gcd(gcd, c[v]), rest - {v}, next;
    }
    assert c.Keys - rest == c.Keys;
  }

  ghost function Combined(x: Point, v: nat, s: int, t: int): Point {
    (u: nat) => if u == v then t else s * x(u)
  }

  ghost function Scaled(x: Point, k: int): Point {
    (u: nat) => k * x(u)
  }

  lemma {:induction false} WitnessStep(c: Coefficients, done: set<nat>, v: nat, x: Point, s: int, t: int)
    requires done <= c.Keys && v in c && v !in done
    ensures PartSum(c, done + {v}, Combined(x, v, s, t)) == PartSum(c, done, x) * s + c[v] * t
  {
    var next := Combined(x, v, s, t);
    SumAdd(c, done, v, next);
    forall u | u in done ensures c[u] * next(u) == s * (c[u] * x(u)) {
      assert next(u) == s * x(u);
    }
    SumProportional(c, c, s, done, next, x);
  }

  lemma {:induction false} SumDivisible(c: Coefficients, g: int, keys: set<nat>, x: Point)
    requires keys <= c.Keys && forall v | v in keys :: Divides(g, c[v])
    ensures Divides(g, PartSum(c, keys, x))
    decreases |keys|
  {
    if keys == {} {
      DividesBy(g, 0, 0);
    } else {
      var v :| v in keys;
      SumRemove(c, keys, v, x);
      SumDivisible(c, g, keys - {v}, x);
      DividesCombination(g, c[v], PartSum(c, keys - {v}, x), x(v), 1);
    }
  }

  lemma {:induction false} ScaledSum(c: Coefficients, k: int, x: Point)
    ensures Linear(c, Scaled(x, k)) == k * Linear(c, x)
  {
    forall v | v in c ensures c[v] * Scaled(x, k)(v) == k * (c[v] * x(v)) {
    }
    SumProportional(c, c, k, c.Keys, Scaled(x, k), x);
  }

  /** The forms reach exactly the multiples of their gcd. */
  lemma {:induction false} ReachesMultiples(c: Coefficients, gcd: nat, attained: Point, rhs: int)
    requires forall v | v in c :: Divides(gcd, c[v])
    requires Linear(c, attained) == gcd
    ensures Divides(gcd, rhs) <==> exists x: Point :: Linear(c, x) == rhs
  {
    if Divides(gcd, rhs) {
      var k :| rhs == gcd * k;
      ScaledSum(c, k, attained);
      assert Linear(c, Scaled(attained, k)) == rhs;
    }
    if x: Point :| Linear(c, x) == rhs {
      SumDivisible(c, gcd, c.Keys, x);
    }
  }

  /** Decides solvability of one equation over the integers. */
  method CheckEqualityContradiction(c: Coefficients, rhs: int) returns (contradicts: bool)
    ensures Canonical(c) ==> (contradicts <==> !exists x: Point :: Linear(c, x) == rhs)
    ensures !Canonical(c) ==> !contradicts
  {
    if !Canonical(c) {
      return false;
    }
    var gcd, attained := CoefficientGcd(c);
    ReachesMultiples(c, gcd, attained, rhs);
    if gcd == 0 {
      assert Divides(0, rhs) ==> rhs == 0;
      assert rhs == 0 ==> Divides(0, rhs) by { DividesBy(0, 0, 0); }
      return rhs != 0;
    }
    assert rhs % gcd == 0 <==> Divides(gcd, rhs) by { RemainderDivides(gcd, rhs); }
    return rhs % gcd != 0;
  }

  lemma {:induction false} RemainderDivides(g: nat, a: int)
    requires g > 0
    ensures a % g == 0 <==> Divides(g, a)
  {
    if a % g == 0 {
      assert a == g * (a / g);
    }
    if Divides(g, a) {
      var k :| a == g * k;
      DivideExact(g, k, a);
    }
  }

  /** Division rounded toward minus infinity loses no integer solution. */
  lemma {:induction false} FloorTightens(g: nat, n: int, bound: int)
    requires g > 0
    ensures g * n <= bound <==> n <= bound / g
  {
    var q, r := bound / g, bound % g;
    assert bound == g * q + r && 0 <= r < g;
    MultipleOutside(g, n - q);
    assert g * (n - q) == g * n - g * q;
    if n <= q {
      assert g * (q - n) == g * q - g * n;
    }
  }

  /** The conclusion is the premise divided by the gcd of its coefficients, its bound rounded down. */
  ghost predicate Tightens(premise: Inequality, conclusion: Inequality, g: nat) {
    var c, d := premise.coefficients, conclusion.coefficients;
    && g > 0 && IsGcd(c, g) && c.Keys == d.Keys
    && (forall v | v in c :: v in d && c[v] == g * d[v])
    && conclusion.bound == premise.bound / g
  }

  /** Accepts exactly the tightening by the gcd, which has the same integer solutions as its premise. */
  method CheckGcdTightening(premise: Inequality, conclusion: Inequality) returns (accepted: bool)
    ensures accepted <==> Canonical(premise.coefficients) && Canonical(conclusion.coefficients)
                          && exists g: nat :: Tightens(premise, conclusion, g)
    ensures accepted ==> forall x: Point :: Holds(premise, x) <==> Holds(conclusion, x)
  {
    var c, d := premise.coefficients, conclusion.coefficients;
    if !Canonical(c) || !Canonical(d) {
      return false;
    }
    var gcd, attained := CoefficientGcd(c);
    forall g: nat | Tightens(premise, conclusion, g) ensures g == gcd {
      GcdUnique(c, g, gcd);
    }
    if gcd == 0 || |c| != |d| {
      return false;
    }
    var rest := c.Keys;
    while rest != {}
      invariant rest <= c.Keys
      invariant forall v | v in c.Keys - rest :: v in d && c[v] == gcd * d[v]
    {
      var v :| v in rest;
      if v !in d || c[v] != gcd * d[v] {
        return false;
      }
      rest := rest - {v};
    }
    SameSizeSubset(c.Keys, d.Keys);
    if conclusion.bound != premise.bound / gcd {
      return false;
    }
    assert Tightens(premise, conclusion, gcd);
    forall x: Point ensures Holds(premise, x) <==> Holds(conclusion, x) {
      forall v | v in c ensures c[v] * x(v) == gcd * (d[v] * x(v)) {
        assert c[v] == gcd * d[v];
        Reassociate(gcd, d[v], x(v));
      }
      SumProportional(c, d, gcd, c.Keys, x, x);
      FloorTightens(gcd, Linear(d, x), premise.bound);
    }
    return true;
  }

  lemma {:induction false} Reassociate(a: int, b: int, c: int)
    ensures (a * b) * c == a * (b * c)
  {
  }

  lemma {:induction false} SameSizeSubset(a: set<nat>, b: set<nat>)
    requires a <= b && |a| == |b|
    ensures a == b
  {
    assert b == a + (b - a);
  }

  /** Add a multiple of one premise to the running sum. */
  method AddMultiple(sum: Coefficients, c: Coefficients, m: int) returns (result: Coefficients)
    ensures forall x: Point :: Linear(result, x) == Linear(sum, x) + m * Linear(c, x)
  {
    result := sum;
    var rest := c.Keys;
    assert c.Keys - rest == {};
    while rest != {}
      invariant rest <= c.Keys
      invariant forall x: Point :: Linear(result, x) == Linear(sum, x) + m * PartSum(c, c.Keys - rest, x)
    {
      var v :| v in rest;
      ghost var done := c.Keys - rest;
      forall x: Point
        ensures Linear(Bump(result, v, m * c[v]), x) == Linear(sum, x) + m * PartSum(c, done + {v}, x)
      {
        BumpSum(result, v, m * c[v], x);
        SumAdd(c, done, v, x);
        DistributeInt(m, PartSum(c, done, x), c[v] * x(v));
        Reassociate(m, c[v], x(v));
      }
      result := Bump(result, v, m * c[v]);
      assert c.Keys - (rest - {v}) == done + {v};
      rest := rest - {v};
    }
    assert c.Keys - rest == c.Keys;
  }

  ghost predicate AllHold(premises: seq<Inequality>, x: Point) {
    forall i | 0 <= i < |premises| :: Holds(premises[i], x)
  }

  /** The weighted sum of the premises' forms, and of their bounds. */
  ghost function WeightedForm(premises: seq<Inequality>, multipliers: seq<int>, x: Point): int
    requires |premises| == |multipliers|
  {
    if premises == [] then 0 else
    var n := |premises| - 1;
    WeightedForm(premises[..n], multipliers[..n], x) + multipliers[n] * Linear(premises[n].coefficients, x)
  }

  ghost function WeightedBound(premises: seq<Inequality>, multipliers: seq<int>): int
    requires |premises| == |multipliers|
  {
    if premises == [] then 0 else
    var n := |premises| - 1;
    WeightedBound(premises[..n], multipliers[..n]) + multipliers[n] * premises[n].bound
  }

  lemma {:induction false} WeightedNext(premises: seq<Inequality>, multipliers: seq<int>, i: nat, x: Point)
    requires |premises| == |multipliers| && i < |premises|
    ensures WeightedForm(premises[..i + 1], multipliers[..i + 1], x) ==
            WeightedForm(premises[..i], multipliers[..i], x) + multipliers[i] * Linear(premises[i].coefficients, x)
    ensures WeightedBound(premises[..i + 1], multipliers[..i + 1]) ==
            WeightedBound(premises[..i], multipliers[..i]) + multipliers[i] * premises[i].bound
  {
    assert premises[..i + 1][..i] == premises[..i] && multipliers[..i + 1][..i] == multipliers[..i];
  }

  /** Where the premises hold, the weighted form is within the weighted bound. */
  lemma {:induction false} WeightedHolds(premises: seq<Inequality>, multipliers: seq<int>, x: Point)
    requires |premises| == |multipliers| && (forall i | 0 <= i < |multipliers| :: multipliers[i] >= 0) && AllHold(premises, x)
    ensures WeightedForm(premises, multipliers, x) <= WeightedBound(premises, multipliers)
  {
    hide Linear;
    if premises != [] {
      var n := |premises| - 1;
      forall i | 0 <= i < n ensures Holds(premises[..n][i], x) {
        assert premises[..n][i] == premises[i];
      }
      WeightedHolds(premises[..n], multipliers[..n], x);
      ScaleBound(multipliers[n], Linear(premises[n].coefficients, x), premises[n].bound);
    }
  }

  lemma {:induction false} ScaleBound(m: int, a: int, b: int)
    requires m >= 0 && a <= b
    ensures m * a <= m * b
  {
  }

  /** A form that vanishes everywhere has no coefficient, and conversely. */
  lemma {:induction false} VanishesWithoutCoefficients(c: Coefficients)
    ensures (forall x: Point :: Linear(c, x) == 0) <==> forall v | v in c :: c[v] == 0
  {
    if forall v | v in c :: c[v] == 0 {
      forall x: Point ensures Linear(c, x) == 0 {
        SumProportional(c, c, 0, c.Keys, x, x);
      }
    } else {
      var v :| v in c && c[v] != 0;
      var unit: Point := (u: nat) => if u == v then 1 else 0;
      SumRemove(c, c.Keys, v, unit);
      SumProportional(c, c, 0, c.Keys - {v}, unit, unit);
      assert Linear(c, unit) == c[v];
    }
  }

  /** Nonnegative multipliers cancel every variable and leave a negative bound. */
  ghost predicate Contradiction(premises: seq<Inequality>, multipliers: seq<int>) {
    && |premises| == |multipliers|
    && (forall i | 0 <= i < |premises| :: multipliers[i] >= 0 && Canonical(premises[i].coefficients))
    && (forall x: Point :: WeightedForm(premises, multipliers, x) == 0)
    && WeightedBound(premises, multipliers) < 0
  }

  /** Accepts exactly the contradictions, and those refute their premises over the integers. */
  method CheckLinearContradiction(premises: seq<Inequality>, multipliers: seq<int>) returns (accepted: bool)
    ensures accepted <==> Contradiction(premises, multipliers)
    ensures accepted ==> forall x: Point :: !AllHold(premises, x)
  {
    hide Linear, WeightedForm, WeightedBound;
    if |premises| != |multipliers| {
      return false;
    }
    var sum: Coefficients := map[];
    var bound := 0;
    NothingWeighted(premises, multipliers);
    for i := 0 to |premises|
      invariant forall j | 0 <= j < i :: multipliers[j] >= 0 && Canonical(premises[j].coefficients)
      invariant forall x: Point :: Linear(sum, x) == WeightedForm(premises[..i], multipliers[..i], x)
      invariant bound == WeightedBound(premises[..i], multipliers[..i])
    {
      if multipliers[i] < 0 || !Canonical(premises[i].coefficients) {
        return false;
      }
      forall x: Point {
        WeightedNext(premises, multipliers, i, x);
      }
      WeightedNext(premises, multipliers, i, _ => 0);
      sum := AddMultiple(sum, premises[i].coefficients, multipliers[i]);
      bound := bound + multipliers[i] * premises[i].bound;
    }
    assert premises[..|premises|] == premises && multipliers[..|multipliers|] == multipliers;
    VanishesWithoutCoefficients(sum);
    if exists v :: v in sum && sum[v] != 0 {
      return false;
    }
    forall x: Point | AllHold(premises, x) ensures 0 <= bound {
      WeightedHolds(premises, multipliers, x);
    }
    return bound < 0;
  }

  lemma {:induction false} NothingWeighted(premises: seq<Inequality>, multipliers: seq<int>)
    requires |premises| == |multipliers|
    ensures forall x: Point :: WeightedForm(premises[..0], multipliers[..0], x) == 0 == Linear(map[], x)
    ensures WeightedBound(premises[..0], multipliers[..0]) == 0
  {
  }
}
