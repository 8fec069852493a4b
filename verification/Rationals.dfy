/** Exact rationals in lowest terms and the real numbers they denote. */
module Rationals {
  import opened IntegerArithmetic

  datatype Rational = Rational(num: int, den: int)

  predicate Proper(q: Rational) {
    q.den > 0
  }

  ghost function Value(q: Rational): real
    requires q.den != 0
  {
    q.num as real / q.den as real
  }

  /** No common divisor is left. */
  predicate Lowest(q: Rational) { Proper(q) && Gcd(q.num, q.den) == 1 }

  lemma {:induction false} MutualDivides(a: int, b: int)
    requires a > 0 && b > 0 && Divides(a, b) && Divides(b, a)
    ensures a == b
  {
    var j :| b == a * j;
    var k :| a == b * k;
    if j <= 0 { NonPositive(a, j); }
    if k <= 0 { NonPositive(b, k); }
    assert b >= a by { MultipleOutside(a, j); }
    assert a >= b by { MultipleOutside(b, k); }
  }

  /** With a denominator prime to the numerator, that denominator divides any other one of the same value. */
  lemma {:induction false} LowestDivides(a: Rational, num: int, den: int)
    requires Lowest(a) && a.num * den == num * a.den
    ensures Divides(a.den, den)
  {
    var x, y := Bezout(a.num, a.den);
    assert den == a.den * (x * num + y * den) by {
      CombineCross(a.num, a.den, num, den, x, y);
    }
  }

  lemma {:induction false} CombineCross(n: int, d: int, num: int, den: int, x: int, y: int)
    requires n * x + d * y == 1 && n * den == num * d
    ensures den == d * (x * num + y * den)
  {
    assert den == den * (n * x + d * y);
    assert den * (n * x) == x * (n * den) == d * (x * num);
    assert den * (d * y) == d * (y * den);
  }

  /** Numbers in lowest terms are equal when they denote the same. */
  lemma {:induction false} LowestUnique(a: Rational, b: Rational)
    requires Lowest(a) && Lowest(b) && Value(a) == Value(b)
    ensures a == b
  {
    CrossMultiply(a, b);
    LowestDivides(a, b.num, b.den);
    LowestDivides(b, a.num, a.den);
    MutualDivides(a.den, b.den);
    assert a.den * a.num == a.den * b.num;
    CancelLeft(a.den, a.num, b.num);
  }

  lemma {:induction false} CrossMultiply(a: Rational, b: Rational)
    requires Proper(a) && Proper(b) && Value(a) == Value(b)
    ensures a.num * b.den == b.num * a.den
  {
    var x, y, u, w := a.num as real, a.den as real, b.num as real, b.den as real;
    assert Value(a) * y == x && Value(b) * w == u;
    assert x * w == Value(a) * y * w == u * y;
    assert (a.num * b.den) as real == x * w && (b.num * a.den) as real == u * y;
  }

  /** Dividing both parts by their gcd leaves no common divisor. */
  lemma {:induction false} ReducedLowest(num: int, den: int)
    requires den > 0
    ensures Gcd(num, den) > 0 && Gcd(num / Gcd(num, den), den / Gcd(num, den)) == 1
  {
    GcdDivides(num, den);
    LowestBy(num, den, Gcd(num, den));
  }

  lemma {:induction false} LowestBy(num: int, den: int, g: int)
    requires den > 0 && g == Gcd(num, den) && g > 0 && Divides(g, num) && Divides(g, den)
    ensures Gcd(num / g, den / g) == 1
  {
    hide Gcd;
    var j :| num == g * j;
    var k :| den == g * k;
    DivideExact(g, j, num);
    DivideExact(g, k, den);
    if k <= 0 { NonPositive(g, k); }
    var h := Gcd(j, k);
    GcdDivides(j, k);
    var l := Factor(h, j);
    var m := Factor(h, k);
    CommonFactor(g, h, l, num, j);
    CommonFactor(g, h, m, den, k);
    GcdGreatest(g * h, num, den);
    var q := Factor(g * h, g);
    OnlyOne(g, h, q);
  }

  lemma {:induction false} Factor(d: int, a: int) returns (k: int)
    requires Divides(d, a)
    ensures a == d * k
  {
    k :| a == d * k;
  }

  lemma {:induction false} CommonFactor(g: int, h: int, l: int, num: int, j: int)
    requires num == g * j && j == h * l
    ensures Divides(g * h, num)
  {
    assert num == (g * h) * l;
  }

  lemma {:induction false} OnlyOne(g: int, h: nat, q: int)
    requires g > 0 && g == (g * h) * q
    ensures h == 1
  {
    assert g * 1 == g * (h * q);
    CancelLeft(g, 1, h * q);
    UnitFactor(h, q);
  }

  lemma {:induction false} UnitFactor(h: nat, q: int)
    requires h * q == 1
    ensures h == 1
  {
    if h > 0 {
      MultipleOutside(h, q);
    }
  }

  /** Lowest terms. */
  function Reduce(num: int, den: int): (q: Rational)
    requires den > 0
    ensures Proper(q) && Value(q) == num as real / den as real && Lowest(q)
    ensures q.num == 0 <==> num == 0
  {
    GcdDivides(num, den);
    ReducedLowest(num, den);
    var g := Gcd(num, den);
    ReduceFacts(num, den, g);
    Rational(num / g, den / g)
  }

  lemma {:induction false} ReduceFacts(num: int, den: int, g: int)
    requires den > 0 && g > 0 && Divides(g, num) && Divides(g, den)
    ensures den / g > 0
    ensures (num / g) as real / (den / g) as real == num as real / den as real
    ensures num / g == 0 <==> num == 0
  {
    var j :| num == g * j;
    var k :| den == g * k;
    DivideExact(g, j, num);
    DivideExact(g, k, den);
    if k <= 0 { NonPositive(g, k); }
    assert num as real == g as real * j as real;
    assert den as real == g as real * k as real;
  }

  function Add(a: Rational, b: Rational): (q: Rational)
    requires Proper(a) && Proper(b)
    ensures Proper(q) && Value(q) == Value(a) + Value(b)
  {
    AddValue(a, b);
    Reduce(a.num * b.den + b.num * a.den, a.den * b.den)
  }

  lemma {:induction false} AddValue(a: Rational, b: Rational)
    requires Proper(a) && Proper(b)
    ensures a.den * b.den != 0
    ensures (a.num * b.den + b.num * a.den) as real / (a.den * b.den) as real == Value(a) + Value(b)
  {
    var x, y, u, w := a.num as real, a.den as real, b.num as real, b.den as real;
    assert Value(a) * y == x && Value(b) * w == u;
    assert (a.num * b.den + b.num * a.den) as real == x * w + u * y;
    assert (a.den * b.den) as real == y * w;
  }

  function Multiply(a: Rational, b: Rational): (q: Rational)
    requires Proper(a) && Proper(b)
    ensures Proper(q) && Value(q) == Value(a) * Value(b) && Lowest(q)
  {
    MultiplyValue(a, b);
    Reduce(a.num * b.num, a.den * b.den)
  }

  lemma {:induction false} MultiplyValue(a: Rational, b: Rational)
    requires Proper(a) && Proper(b)
    ensures a.den * b.den != 0
    ensures (a.num * b.num) as real / (a.den * b.den) as real == Value(a) * Value(b)
  {
    var x, y, u, w := a.num as real, a.den as real, b.num as real, b.den as real;
    assert Value(a) * y == x && Value(b) * w == u;
    assert (a.num * b.num) as real == x * u;
    assert (a.den * b.den) as real == y * w;
  }

  function Negate(a: Rational): (q: Rational)
    requires Proper(a)
    ensures Proper(q) && Value(q) == -Value(a)
  {
    Rational(-a.num, a.den)
  }
}
