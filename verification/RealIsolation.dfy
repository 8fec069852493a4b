/** Turning an isolating interval with openness flags into one whose closed ends are no roots. */
module RealIsolation {
  import opened Basics

  /** A polynomial's coefficients, constant first, and the interval that isolates one of its roots. */
  datatype Algebraic = Algebraic(coefficients: seq<int>, lower: real, upper: real, lowerOpen: bool, upperOpen: bool)

  /** An exact rational, or the polynomial's only root between two numbers. */
  datatype Model = Exact(value: real) | Between(lower: real, upper: real)

  function Power(x: real, n: nat): real { if n == 0 then 1.0 else x * Power(x, n - 1) }

  /** The sum of the coefficients times the powers of the point. */
  function Poly(c: seq<int>, x: real): real {
    if c == [] then 0.0 else Poly(c[..|c| - 1], x) + c[|c| - 1] as real * Power(x, |c| - 1)
  }

  predicate Root(a: Algebraic, x: real) { Poly(a.coefficients, x) == 0.0 }

  predicate Inside(a: Algebraic, x: real) {
    && (if a.lowerOpen then a.lower < x else a.lower <= x)
    && (if a.upperOpen then x < a.upper else x <= a.upper)
  }

  /** The interval contains exactly one root. */
  ghost predicate Isolates(a: Algebraic, root: real) {
    Inside(a, root) && Root(a, root) && forall x: real | Inside(a, x) && Root(a, x) :: x == root
  }

  /** Exact comparison of the algebraic number with a rational. */
  ghost predicate Compares(compare: real -> int, root: real) {
    forall q: real :: (compare(q) < 0 <==> root < q) && (compare(q) == 0 <==> root == q)
  }

  /** What the emitted value must denote: the isolated root. */
  ghost predicate Denotes(a: Algebraic, root: real, model: Model) {
    match model
    case Exact(value) => value == root
    case Between(lower, upper) =>
      && a.lower <= lower < root < upper <= a.upper && !Root(a, lower) && !Root(a, upper)
      && forall x: real | lower <= x <= upper && Root(a, x) :: x == root
  }

  /** Horner's scheme from index `i` on. */
  function Horner(c: seq<int>, i: nat, x: real): real
    requires i <= |c|
    decreases |c| - i
  {
    if i == |c| then 0.0 else Horner(c, i + 1, x) * x + c[i] as real
  }

  lemma {:induction false} HornerSplits(c: seq<int>, i: nat, x: real)
    requires i <= |c|
    ensures Poly(c, x) == Poly(c[..i], x) + Power(x, i) * Horner(c, i, x)
    decreases |c| - i
  {
    if i == |c| {
      assert c[..i] == c;
    } else {
      HornerSplits(c, i + 1, x);
      assert c[..i + 1][..i] == c[..i];
    }
  }

  method IsRoot(c: seq<int>, x: real) returns (root: bool)
    ensures root <==> Poly(c, x) == 0.0
  {
    var value := 0.0;
    var i := |c|;
    while i > 0
      invariant 0 <= i <= |c| && value == Horner(c, i, x)
    {
      i := i - 1;
      value := value * x + c[i] as real;
    }
    HornerSplits(c, 0, x);
    return value == 0.0;
  }

  lemma {:induction false} AllZero(c: seq<int>, x: real)
    requires forall i | 0 <= i < |c| :: c[i] == 0
    ensures Poly(c, x) == 0.0
  {
    if c != [] {
      AllZero(c[..|c| - 1], x);
    }
  }

  /** A nondegenerate isolating interval has a nonzero polynomial: the guard never fires. */
  lemma {:induction false} IsolatedIsNonzero(a: Algebraic, root: real)
    requires Isolates(a, root) && a.lower != a.upper
    ensures a.lower < a.upper && exists i :: 0 <= i < |a.coefficients| && a.coefficients[i] != 0
  {
    if forall i | 0 <= i < |a.coefficients| :: a.coefficients[i] == 0 {
      var third, half := (a.lower * 2.0 + a.upper) / 3.0, (a.lower + a.upper) / 2.0;
      AllZero(a.coefficients, third);
      AllZero(a.coefficients, half);
      assert Inside(a, third) && Inside(a, half);
      assert Root(a, third) && Root(a, half);
    }
  }

  /** A polynomial of degree at most one has its root where the quotient says. */
  lemma {:induction false} LinearRoot(a: Algebraic, root: real)
    requires Isolates(a, root) && |a.coefficients| <= 2 && a.lower != a.upper
    ensures |a.coefficients| == 2 && a.coefficients[1] != 0 && root == (-a.coefficients[0]) as real / a.coefficients[1] as real
  {
    var c := a.coefficients;
    IsolatedIsNonzero(a, root);
    ConstantPoly(c, root);
    if |c| == 2 {
      SmallPoly(c, root);
      if c[1] != 0 {
        var d := c[1] as real;
        assert root * d == (-c[0]) as real;
        assert root == (root * d) / d;
      }
    }
  }

  lemma {:induction false} ConstantPoly(c: seq<int>, x: real)
    ensures |c| == 1 ==> Poly(c, x) == c[0] as real
  {
    if |c| == 1 {
      assert Poly(c[..0], x) == 0.0 && Power(x, 0) == 1.0;
    }
  }

  lemma {:induction false} SmallPoly(c: seq<int>, x: real)
    requires |c| == 2
    ensures Poly(c, x) == c[0] as real + c[1] as real * x
  {
    var d := c[..1];
    assert Poly(d, x) == Poly(d[..0], x) + d[0] as real * Power(x, 0);
    assert Power(x, 1) == x * Power(x, 0);
  }

  /** How much of the interval lies beyond the nearer end. */
  ghost function Ratio(width: real, gap: real): int
    requires gap > 0.0
  {
    (width / gap).Floor
  }

  lemma {:induction false} FactorSign(x: real, g: real)
    requires g > 0.0 && x * g >= 0.0
    ensures x >= 0.0
  {
  }

  lemma {:induction false} HalvingShrinks(width: real, gap: real)
    requires gap > 0.0 && width >= gap
    ensures 0 <= Ratio(width / 2.0, gap) < Ratio(width, gap)
  {
    var q := width / gap;
    assert (q - 1.0) * gap == width - gap;
    FactorSign(q - 1.0, gap);
    assert (width / 2.0) / gap == q / 2.0;
  }

  /** The value that the model syntax can express. */
  method Serialise(a: Algebraic, compare: real -> int, ghost root: real) returns (model: Model)
    requires Isolates(a, root) && Compares(compare, root)
    ensures Denotes(a, root, model)
    ensures |a.coefficients| <= 2 || a.lower == a.upper ==> model == Exact(root)
    ensures |a.coefficients| > 2 && a.lower != a.upper && !Root(a, a.lower) && !Root(a, a.upper) ==> model == Between(a.lower, a.upper)
  {
    if |a.coefficients| <= 2 || a.lower == a.upper {
      if |a.coefficients| == 2 && a.coefficients[1] != 0 {
        ghost var c := a.coefficients;
        SmallPoly(c, root);
        assert root * c[1] as real == (-c[0]) as real;
        assert root == (root * c[1] as real) / c[1] as real;
        return Exact((-a.coefficients[0]) as real / a.coefficients[1] as real);
      }
      if a.lower != a.upper {
        LinearRoot(a, root);
      }
      return Exact(a.lower);
    }
    IsolatedIsNonzero(a, root);
    var lower, upper := a.lower, a.upper;
    var lowerRoot := IsRoot(a.coefficients, lower);
    var upperRoot := IsRoot(a.coefficients, upper);
    if lowerRoot && compare(lower) == 0 {
      return Exact(lower);
    }
    if upperRoot && compare(upper) == 0 {
      return Exact(upper);
    }
    ghost var gap := if root - lower < upper - root then root - lower else upper - root;
    while lowerRoot || upperRoot
      invariant a.lower <= lower < root < upper <= a.upper && gap > 0.0
      invariant !Root(a, a.lower) && !Root(a, a.upper) ==> lower == a.lower && upper == a.upper
      invariant lowerRoot <==> Root(a, lower)
      invariant upperRoot <==> Root(a, upper)
      invariant lowerRoot ==> lower == a.lower && root - lower >= gap
      invariant upperRoot ==> upper == a.upper && upper - root >= gap
      decreases Ratio(upper - lower, gap)
    {
      HalvingShrinks(upper - lower, gap);
      var middle := (lower + upper) / 2.0;
      var order := compare(middle);
      if order == 0 {
        return Exact(middle);
      }
      if order < 0 {
        upper := middle;
        upperRoot := IsRoot(a.coefficients, upper);
      } else {
        lower := middle;
        lowerRoot := IsRoot(a.coefficients, lower);
      }
    }
    forall x: real | lower <= x <= upper && Root(a, x) ensures x == root {
      assert x != lower && x != upper && Inside(a, x);
    }
    return Between(lower, upper);
  }
}
