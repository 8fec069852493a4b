/** Divisibility, greatest common divisors and floor division over the integers. */
module IntegerArithmetic {
  function Abs(a: int): nat {
    if a < 0 then -a else a
  }

  ghost predicate Divides(d: int, a: int) {
    exists k: int :: a == d * k
  }

  function Gcd(a: int, b: int): nat
    decreases Abs(b)
  {
    if b == 0 then Abs(a) else Gcd(b, a % b)
  }

  lemma {:induction false} DividesBy(d: int, a: int, k: int)
    requires a == d * k
    ensures Divides(d, a)
  {
  }

  lemma {:induction false} DividesCombination(d: int, a: int, b: int, x: int, y: int)
    requires Divides(d, a) && Divides(d, b)
    ensures Divides(d, a * x + b * y)
  {
    var j :| a == d * j;
    var k :| b == d * k;
    assert a * x + b * y == d * (j * x + k * y);
  }

  lemma {:induction false} DividesTransitive(c: int, d: int, a: int)
    requires Divides(c, d) && Divides(d, a)
    ensures Divides(c, a)
  {
    var j :| d == c * j;
    var k :| a == d * k;
    assert a == c * (j * k);
  }

  lemma {:induction false} GcdDivides(a: int, b: int)
    ensures Divides(Gcd(a, b), a) && Divides(Gcd(a, b), b)
    ensures Gcd(a, b) == 0 <==> a == 0 && b == 0
    decreases Abs(b)
  {
    if b == 0 {
      DividesBy(Abs(a), a, if a < 0 then -1 else 1);
      DividesBy(Abs(a), 0, 0);
    } else {
      var g := Gcd(b, a % b);
      GcdDivides(b, a % b);
      DividesCombination(g, b, a % b, a / b, 1);
      assert b * (a / b) + a % b * 1 == a;
    }
  }

  lemma {:induction false} BezoutStep(a: int, b: int, q: int, r: int, u: int, w: int)
    requires a == b * q + r
    ensures a * w + b * (u - q * w) == b * u + r * w
  {
    assert a * w == b * q * w + r * w;
    assert b * (u - q * w) == b * u - b * q * w;
  }

  /** Every gcd is an integer combination of its arguments. */
  lemma {:induction false} Bezout(a: int, b: int) returns (x: int, y: int)
    ensures a * x + b * y == Gcd(a, b)
    decreases Abs(b)
  {
    if b == 0 {
      x, y := if a < 0 then -1 else 1, 0;
    } else {
      var u, w := Bezout(b, a % b);
      x, y := w, u - (a / b) * w;
      BezoutStep(a, b, a / b, a % b, u, w);
    }
  }

  lemma {:induction false} GcdGreatest(d: int, a: int, b: int)
    requires Divides(d, a) && Divides(d, b)
    ensures Divides(d, Gcd(a, b))
  {
    var x, y := Bezout(a, b);
    DividesCombination(d, a, b, x, y);
  }

  function Lcm(a: nat, b: nat): (m: nat)
    requires a > 0 && b > 0
    ensures m > 0 && Divides(a, m) && Divides(b, m)
  {
    GcdDivides(a, b);
    var g := Gcd(a, b);
    LcmFacts(a, b, g);
    a / g * b
  }

  lemma {:induction false} LcmFacts(a: nat, b: nat, g: nat)
    requires a > 0 && b > 0 && g > 0 && Divides(g, a) && Divides(g, b)
    ensures a / g * b > 0 && Divides(a, a / g * b) && Divides(b, a / g * b)
  {
    var j :| a == g * j;
    var k :| b == g * k;
    DivideExact(g, j, a);
    assert j > 0 by { if j <= 0 { NonPositive(g, j); } }
    assert a / g * b == j * (g * k) == a * k;
    assert j * b > 0;
    DividesBy(a, a / g * b, k);
    DividesBy(b, a / g * b, j);
  }

  /** The least common multiple divides every common multiple. */
  lemma {:induction false} LcmLeast(a: nat, b: nat, m: int)
    requires a > 0 && b > 0 && Divides(a, m) && Divides(b, m)
    ensures Divides(Lcm(a, b), m)
  {
    GcdDivides(a, b);
    var g := Gcd(a, b);
    var j :| a == g * j;
    var k :| m == b * k;
    var l :| m == a * l;
    DivideExact(g, j, a);
    var x, y := Bezout(a, b);
    var lcm := Lcm(a, b);
    assert lcm == j * b;
    CombineMultiples(g, j, a, b, m, k, l, x, y, lcm);
    DividesBy(lcm, m, x * k + y * l);
  }

  lemma {:induction false} CombineMultiples(g: int, j: int, a: int, b: int, m: int, k: int, l: int, x: int, y: int, lcm: int)
    requires a == g * j && m == b * k && m == a * l && g == a * x + b * y && lcm == j * b && g > 0
    ensures m == lcm * (x * k + y * l)
  {
    assert g * lcm == a * b;
    assert g * m == a * x * m + b * y * m;
    assert a * x * m == (a * b) * (x * k);
    assert b * y * m == (a * b) * (y * l);
    assert (a * b) * (x * k) + (a * b) * (y * l) == (a * b) * (x * k + y * l);
    assert (a * b) * (x * k + y * l) == g * (lcm * (x * k + y * l));
    CancelLeft(g, m, lcm * (x * k + y * l));
  }

  lemma {:induction false} CancelLeft(g: int, x: int, y: int)
    requires g > 0 && g * x == g * y
    ensures x == y
  {
  }

  lemma {:induction false} NonPositive(g: int, j: int)
    requires g > 0 && j <= 0
    ensures g * j <= 0
  {
  }

  lemma {:induction false} MultipleOutside(g: int, t: int)
    requires g > 0
    ensures t >= 1 ==> g * t >= g
    ensures t <= -1 ==> g * t <= -g
  {
  }

  lemma {:induction false} DivideExact(g: int, j: int, a: int)
    requires g > 0 && a == g * j
    ensures a / g == j && a % g == 0
  {
    var q, r := a / g, a % g;
    assert a == g * q + r && 0 <= r < g;
    assert g * (j - q) == r;
    MultipleOutside(g, j - q);
  }
}
