/** Reading and printing exact rationals as SMT-LIB literals. */
module RationalText {
  import opened Basics
  import opened Decimals

  predicate Space(c: char) { c in " \t\n\r" || c == 11 as char || c == 12 as char }

  function TrimLeft(s: string): string { if s != "" && Space(s[0]) then TrimLeft(s[1..]) else s }

  function TrimRight(s: string): string {
    if s != "" && Space(s[|s| - 1]) then TrimRight(s[..|s| - 1]) else s
  }

  function Trim(s: string): (r: string)
    ensures |r| <= |s|
  {
    TrimNoLonger(s);
    TrimRight(TrimLeft(s))
  }

  lemma {:induction false} TrimNoLonger(s: string)
    ensures |TrimLeft(s)| <= |s| && |TrimRight(TrimLeft(s))| <= |s|
  {
    TrimLeftNoLonger(s);
    TrimRightNoLonger(TrimLeft(s));
  }

  lemma {:induction false} TrimLeftNoLonger(s: string)
    ensures |TrimLeft(s)| <= |s|
  {
    if s != "" {
      TrimLeftNoLonger(s[1..]);
    }
  }

  lemma {:induction false} TrimRightNoLonger(s: string)
    ensures |TrimRight(s)| <= |s|
  {
    if s != "" {
      TrimRightNoLonger(s[..|s| - 1]);
    }
  }

  /** The first place of a character, or the length. */
  function Find(s: string, c: char): (i: nat)
    ensures i <= |s| && (i < |s| ==> s[i] == c) && forall j | 0 <= j < i :: s[j] != c
  {
    if s == "" || s[0] == c then 0 else 1 + Find(s[1..], c)
  }

  /** A decimal integer without superfluous zeros; other spellings are not read here. */
  function ParseInteger(s: string): Option<int> {
    if s != "" && s[0] == '-' then
      match ParseNatural(s[1..])
      case Some(n) => Some(-n)
      case None => None
    else ParseNatural(s)
  }

  function ParseNatural(s: string): Option<int> {
    if s != "" && AllDigits(s) && (|s| == 1 || s[0] != '0') then Some(Number(s)) else None
  }

  function Quotient(num: Option<int>, den: Option<int>): Option<real> {
    if num.Some? && den.Some? && den.value != 0 then Some(num.value as real / den.value as real) else None
  }

  predicate Bracketed(s: string) { s != "" && s[0] == '(' && s[|s| - 1] == ')' }

  function Inside(s: string): (r: string)
    requires Bracketed(s)
    ensures |r| < |s|
  {
    Trim(if |s| >= 2 then s[1..|s| - 1] else "")
  }

  /** The two operands of a prefix division. */
  function ParseOperands(rest: string): Option<real> {
    var space := Find(rest, ' ');
    if space == |rest| then None
    else Quotient(ParseInteger(Trim(rest[..space])), ParseInteger(Trim(rest[space + 1..])))
  }

  function ParsePlain(s: string): Option<real> {
    var slash := Find(s, '/');
    if slash < |s| then Quotient(ParseInteger(Trim(s[..slash])), ParseInteger(Trim(s[slash + 1..])))
    else
      match ParseInteger(s)
      case Some(n) => Some(n as real)
      case None => None
  }

  function Negated(v: Option<real>): Option<real> {
    match v
    case Some(x) => Some(-x)
    case None => None
  }

  /** `n`, `n/d`, `(/ n d)` and `(- X)`, with white space around the parts. */
  function Parse(text: string): Option<real>
    decreases |text|
  {
    var s := Trim(text);
    if s == "" then None
    else if !Bracketed(s) then ParsePlain(s)
    else
      var inner := Inside(s);
      if inner != "" && inner[0] == '-' then Negated(Parse(Trim(inner[1..])))
      else if inner != "" && inner[0] == '/' then ParseOperands(Trim(inner[1..]))
      else None
  }

  function Print(num: int, den: nat): string {
    if den == 1 then
      if num < 0 then "(- " + Decimal(-num) + ")" else Decimal(num)
    else if num < 0 then "(- (/ " + Decimal(-num) + " " + Decimal(den) + "))"
    else "(/ " + Decimal(num) + " " + Decimal(den) + ")"
  }

  /** No white space at either end. */
  predicate Tight(s: string) { s != "" && !Space(s[0]) && !Space(s[|s| - 1]) }

  lemma {:induction false} TrimTight(s: string)
    requires Tight(s)
    ensures Trim(s) == s
  {
  }

  lemma {:induction false} TrimOneSpace(s: string)
    requires Tight(s)
    ensures Trim(" " + s) == s
  {
    assert (" " + s)[1..] == s;
    TrimTight(s);
  }

  lemma {:induction false} DecimalShape(n: nat)
    ensures Tight(Decimal(n)) && Decimal(n)[0] != '(' && ParseInteger(Decimal(n)) == Some(n)
    ensures forall i | 0 <= i < |Decimal(n)| :: Decimal(n)[i] != '/' && Decimal(n)[i] != ' '
  {
    hide Decimal, Number;
    NumberOfDecimal(n);
    NoLeadingZero(n);
    ZeroDigit();
  }

  lemma {:induction false} ZeroDigit()
    ensures Decimal(0) == "0"
  {
  }

  lemma {:induction false} ParseDecimal(n: nat)
    ensures Tight(Decimal(n)) && Parse(Decimal(n)) == Some(n as real)
  {
    hide Decimal, ParseInteger, Trim, Find, Tight;
    DecimalShape(n);
    TrimTight(Decimal(n));
  }

  /** What stands between the parentheses. */
  lemma {:induction false} InsideOf(t: string)
    requires Tight(t)
    ensures Bracketed("(" + t + ")") && Inside("(" + t + ")") == t && Trim("(" + t + ")") == "(" + t + ")" && Tight("(" + t + ")")
  {
    hide Trim;
    var s := "(" + t + ")";
    assert s[1..|s| - 1] == t;
    TrimTight(t);
    TrimTight(s);
  }

  /** Parentheses around a negated literal. */
  lemma {:induction false} ParseNegated(t: string)
    requires Tight(t) && Parse(t).Some?
    ensures Tight("(- " + t + ")") && Parse("(- " + t + ")") == Some(-Parse(t).value)
  {
    hide Trim, Bracketed, Inside, ParsePlain, ParseOperands;
    var inner := "- " + t;
    Glue("- ", t);
    InsideOf(inner);
    assert "(- " + t + ")" == "(" + inner + ")";
    assert inner[1..] == " " + t;
    TrimOneSpace(t);
  }

  lemma {:induction false} Glue(front: string, t: string)
    requires front != "" && !Space(front[0]) && Tight(t)
    ensures Tight(front + t)
  {
    var s := front + t;
    assert s[0] == front[0] && s[|s| - 1] == t[|t| - 1];
  }

  lemma {:induction false} OperandsOf(a: string, b: string)
    requires Tight(a) && Tight(b) && forall i | 0 <= i < |a| :: a[i] != ' '
    ensures Tight(a + " " + b) && ParseOperands(a + " " + b) == Quotient(ParseInteger(a), ParseInteger(b))
  {
    hide Trim, ParseInteger, Find, Quotient;
    var rest := a + " " + b;
    Glue(a + " ", b);
    assert rest[|a|] == ' ' && forall i | 0 <= i < |a| :: rest[i] == a[i];
    assert Find(rest, ' ') == |a|;
    assert rest[..|a|] == a && rest[|a| + 1..] == b;
    TrimTight(a);
    TrimTight(b);
  }

  lemma {:induction false} ParseQuotient(num: nat, den: nat)
    requires den > 0
    ensures Tight("(/ " + Decimal(num) + " " + Decimal(den) + ")")
    ensures Parse("(/ " + Decimal(num) + " " + Decimal(den) + ")") == Some(num as real / den as real)
  {
    hide Trim, Bracketed, Inside, ParsePlain, ParseOperands, Decimal, Tight, ParseInteger;
    var a, b := Decimal(num), Decimal(den);
    DecimalShape(num);
    DecimalShape(den);
    OperandsOf(a, b);
    var rest := a + " " + b;
    var inner := "/ " + rest;
    Glue("/ ", rest);
    InsideOf(inner);
    assert "(/ " + a + " " + b + ")" == "(" + inner + ")";
    assert inner[1..] == " " + rest;
    TrimOneSpace(rest);
  }

  lemma {:induction false} ParseNegativeQuotient(num: nat, den: nat)
    requires den > 0
    ensures Parse("(- (/ " + Decimal(num) + " " + Decimal(den) + "))") == Some(-(num as real) / den as real)
  {
    hide Parse, Decimal, Tight;
    var t := "(/ " + Decimal(num) + " " + Decimal(den) + ")";
    ParseQuotient(num, den);
    ParseNegated(t);
    assert "(- (/ " + Decimal(num) + " " + Decimal(den) + "))" == "(- " + t + ")";
    NegatedQuotient(num as real, den as real);
  }

  lemma {:induction false} NegatedQuotient(n: real, d: real)
    requires d > 0.0
    ensures -(n / d) == (-n) / d
  {
  }

  /** Reading what was printed gives the same rational. */
  lemma {:induction false} ParsePrint(num: int, den: nat)
    requires den > 0
    ensures Parse(Print(num, den)) == Some(num as real / den as real)
  {
    hide Parse, Decimal, Tight;
    assert num as real / 1.0 == num as real;
    if den == 1 {
      ParseDecimal(if num < 0 then -num else num);
      if num < 0 {
        ParseNegated(Decimal(-num));
      }
    } else if num < 0 {
      ParseNegativeQuotient(-num, den);
    } else {
      ParseQuotient(num, den);
    }
  }

  /** An integer with a leading sign, as plain literals carry it. */
  function Signed(n: int): string { if n < 0 then "-" + Decimal(-n) else Decimal(n) }

  lemma {:induction false} SignedShape(n: int)
    ensures Signed(n) != "" && Tight(Signed(n)) && Signed(n)[0] != '(' && ParseInteger(Signed(n)) == Some(n)
    ensures forall i | 0 <= i < |Signed(n)| :: Signed(n)[i] != '/'
  {
    hide Decimal, Number;
    if n < 0 {
      DecimalShape(-n);
      Glue("-", Decimal(-n));
      NumberOfDecimal(-n);
      NoLeadingZero(-n);
      assert Signed(n)[1..] == Decimal(-n);
      assert Decimal(-n)[0] != '-' && ParseInteger(Decimal(-n)) == ParseNatural(Decimal(-n));
    } else {
      DecimalShape(n);
    }
  }

  /** The plain forms `n` and `n/d`, with a sign. */
  lemma {:induction false} ParseSignedPlain(num: int, den: nat)
    requires den > 0
    ensures Parse(Signed(num)) == Some(num as real)
    ensures Parse(Signed(num) + "/" + Decimal(den)) == Some(num as real / den as real)
  {
    hide Decimal, Signed, ParseInteger, Trim, Tight, Inside, ParseOperands;
    SignedShape(num);
    TrimTight(Signed(num));
    assert Parse(Signed(num)) == ParsePlain(Signed(num));
    var a, b := Signed(num), Decimal(den);
    var s := a + "/" + b;
    DecimalShape(den);
    TightJoin(a, "/", b);
    TrimTight(a);
    TrimTight(b);
    TrimTight(s);
    assert s[|a|] == '/' && forall i | 0 <= i < |a| :: s[i] == a[i];
    assert Find(s, '/') == |a|;
    assert s[..|a|] == a && s[|a| + 1..] == b;
    assert Parse(s) == ParsePlain(s);
  }

  lemma {:induction false} TightJoin(a: string, middle: string, b: string)
    requires Tight(a) && Tight(b)
    ensures Tight(a + middle + b) && (a + middle + b)[0] == a[0]
  {
  }

  /** Distinct rationals are printed differently. */
  lemma {:induction false} PrintInjective(num: int, den: nat, otherNum: int, otherDen: nat)
    requires den > 0 && otherDen > 0 && Print(num, den) == Print(otherNum, otherDen)
    ensures num as real / den as real == otherNum as real / otherDen as real
  {
    ParsePrint(num, den);
    ParsePrint(otherNum, otherDen);
  }
}
