/** Signed facts that asserted roots require, without choosing a Boolean branch. */
module RequiredFacts {
  import opened Basics
  import opened Terms
  import opened FirstOccurrences

  datatype Fact = Fact(expression: nat, positive: bool)

  /** The signed children that are together equivalent to a signed expression. */
  function Parts(ir: Dag, f: Fact): Option<seq<Fact>>
    requires f.expression < |ir|
  {
    var node := ir[f.expression];
    var c := node.children;
    if node.op.Not? && |c| == 1 then Some([Fact(c[0], !f.positive)])
    else if (f.positive && node.op.And?) || (!f.positive && node.op.Or?) then Some(Signed(c, f.positive))
    else if !f.positive && node.op.Implies? && |c| >= 2 then Some(Signed(c[..|c| - 1], true) + [Fact(c[|c| - 1], false)])
    else None
  }

  function Signed(ids: seq<nat>, positive: bool): seq<Fact> {
    seq(|ids|, i requires 0 <= i < |ids| => Fact(ids[i], positive))
  }

  /** The whole tree of requirements, repetitions included. */
  function Unfold(ir: Dag, f: Fact): seq<Fact>
    requires Ordered(ir) && f.expression < |ir|
    decreases f.expression, 1, 0
  {
    if Parts(ir, f).None? then [f] else
    UnfoldAll(ir, Parts(ir, f).value, f.expression)
  }

  function UnfoldAll(ir: Dag, fs: seq<Fact>, bound: nat): seq<Fact>
    requires Ordered(ir) && bound <= |ir| && forall f | f in fs :: f.expression < bound
    decreases bound, 0, |fs|
  {
    if fs == [] then [] else Unfold(ir, fs[0]) + UnfoldAll(ir, fs[1..], bound)
  }

  lemma {:induction false} UnfoldAllConcat(ir: Dag, fs: seq<Fact>, gs: seq<Fact>, bound: nat)
    requires Ordered(ir) && bound <= |ir| && forall f | f in fs + gs :: f.expression < bound
    ensures UnfoldAll(ir, fs + gs, bound) == UnfoldAll(ir, fs, bound) + UnfoldAll(ir, gs, bound)
    decreases |fs|
  {
    if fs == [] {
      assert fs + gs == gs;
    } else {
      assert (fs + gs)[1..] == fs[1..] + gs;
      assert forall f | f in fs[1..] + gs :: f in fs + gs;
      UnfoldAllConcat(ir, fs[1..], gs, bound);
    }
  }

  lemma {:induction false} UnfoldAllBound(ir: Dag, fs: seq<Fact>, bound: nat)
    requires Ordered(ir) && bound <= |ir| && forall f | f in fs :: f.expression < bound
    ensures UnfoldAll(ir, fs, bound) == UnfoldAll(ir, fs, |ir|)
    decreases |fs|
  {
    if fs != [] {
      UnfoldAllBound(ir, fs[1..], bound);
    }
  }

  /** A valuation of the nodes that respects the connectives read here. */
  ghost predicate Respects(ir: Dag, holds: nat -> bool) {
    forall id: nat | id < |ir| :: RespectsAt(ir, holds, id)
  }

  ghost predicate RespectsAt(ir: Dag, holds: nat -> bool, id: nat)
    requires id < |ir|
  {
    var c := ir[id].children;
    match ir[id].op
    case Not => |c| == 1 ==> holds(id) != holds(c[0])
    case And => holds(id) == forall k: nat | k < |c| :: holds(c[k])
    case Or => holds(id) == exists k: nat :: k < |c| && holds(c[k])
    case Implies => |c| >= 2 ==> holds(id) == ((forall k: nat | k < |c| - 1 :: holds(c[k])) ==> holds(c[|c| - 1]))
    case _ => true
  }

  ghost predicate AllTrue(holds: nat -> bool, fs: seq<Fact>) {
    forall f | f in fs :: holds(f.expression) == f.positive
  }

  lemma {:induction false} AllTrueSigned(holds: nat -> bool, ids: seq<nat>, positive: bool)
    ensures AllTrue(holds, Signed(ids, positive)) <==> forall k: nat | k < |ids| :: holds(ids[k]) == positive
  {
    assert forall k: nat | k < |ids| :: Signed(ids, positive)[k] == Fact(ids[k], positive);
  }

  /** A decomposed fact is equivalent to its parts. */
  lemma {:induction false} PartsEquivalent(ir: Dag, holds: nat -> bool, f: Fact)
    requires Ordered(ir) && Respects(ir, holds) && f.expression < |ir| && Parts(ir, f).Some?
    ensures AllTrue(holds, Parts(ir, f).value) <==> holds(f.expression) == f.positive
  {
    var c, parts := ir[f.expression].children, Parts(ir, f).value;
    assert RespectsAt(ir, holds, f.expression);
    match ir[f.expression].op
    case Not =>
    case Implies =>
      var antecedents := Signed(c[..|c| - 1], true);
      AllTrueSigned(holds, c[..|c| - 1], true);
    case _ =>
      AllTrueSigned(holds, c, f.positive);
  }

  lemma {:induction false} UnfoldEquivalent(ir: Dag, holds: nat -> bool, f: Fact)
    requires Ordered(ir) && Respects(ir, holds) && f.expression < |ir|
    ensures AllTrue(holds, Unfold(ir, f)) <==> holds(f.expression) == f.positive
    decreases f.expression, 1, 0
  {
    if Parts(ir, f).None? {
      assert Unfold(ir, f) == [f];
    } else {
      PartsEquivalent(ir, holds, f);
      UnfoldAllEquivalent(ir, holds, Parts(ir, f).value, f.expression);
    }
  }

  lemma {:induction false} UnfoldAllEquivalent(ir: Dag, holds: nat -> bool, fs: seq<Fact>, bound: nat)
    requires Ordered(ir) && Respects(ir, holds) && bound <= |ir| && forall f | f in fs :: f.expression < bound
    ensures AllTrue(holds, UnfoldAll(ir, fs, bound)) <==> AllTrue(holds, fs)
    decreases bound, 0, |fs|
  {
    if fs != [] {
      UnfoldEquivalent(ir, holds, fs[0]);
      UnfoldAllEquivalent(ir, holds, fs[1..], bound);
      assert fs == [fs[0]] + fs[1..];
    }
  }

  function RootFacts(roots: seq<nat>): (fs: seq<Fact>)
    ensures forall f | f in fs :: f.expression in roots
  {
    Signed(roots, true)
  }

  /** What the extraction returns. */
  function Required(ir: Dag, roots: seq<nat>): seq<Fact>
    requires Ordered(ir) && forall r | r in roots :: r < |ir|
  {
    Gather([], UnfoldAll(ir, RootFacts(roots), |ir|))
  }

  /** The facts are together equivalent to the roots, and none is repeated. */
  lemma {:induction false} RequiredEquivalent(ir: Dag, roots: seq<nat>, holds: nat -> bool)
    requires Ordered(ir) && Respects(ir, holds) && forall r | r in roots :: r < |ir|
    ensures AllTrue(holds, Required(ir, roots)) <==> forall r | r in roots :: holds(r)
    ensures Basics.Distinct(Required(ir, roots))
  {
    var unfolded, facts := UnfoldAll(ir, RootFacts(roots), |ir|), Required(ir, roots);
    GatherExact([], unfolded);
    UnfoldAllEquivalent(ir, holds, RootFacts(roots), |ir|);
    AllTrueSigned(holds, roots, true);
  }

  /** The fact needs another one: a negation its operand the other way, an asserted conjunction or a
      refuted disjunction each operand, a refuted implication its antecedents and not its consequent. */
  ghost predicate Needs(ir: Dag, f: Fact, g: Fact)
    requires f.expression < |ir|
  {
    var node := ir[f.expression];
    var c := node.children;
    match node.op
    case Not => |c| == 1 && g == Fact(c[0], !f.positive)
    case And => f.positive && exists k: nat :: k < |c| && g == Fact(c[k], true)
    case Or => !f.positive && exists k: nat :: k < |c| && g == Fact(c[k], false)
    case Implies => !f.positive && |c| >= 2 && exists k: nat :: k < |c| && g == Fact(c[k], k < |c| - 1)
    case _ => false
  }

  /** The fact cannot be taken apart. */
  predicate Atomic(ir: Dag, f: Fact)
    requires f.expression < |ir|
  {
    var node := ir[f.expression];
    match node.op
    case Not => |node.children| != 1
    case And => !f.positive
    case Or => f.positive
    case Implies => f.positive || |node.children| < 2
    case _ => true
  }

  /** Needed in some number of steps. */
  ghost predicate Reaches(ir: Dag, f: Fact, g: Fact)
    requires Ordered(ir) && f.expression < |ir|
    decreases f.expression
  {
    f == g || exists h: Fact :: h.expression < f.expression && Needs(ir, f, h) && Reaches(ir, h, g)
  }

  /** The parts are what is needed, and there are none of an atomic fact. */
  lemma {:induction false} PartsExact(ir: Dag, f: Fact)
    requires Ordered(ir) && f.expression < |ir|
    ensures Parts(ir, f).None? <==> Atomic(ir, f)
    ensures Parts(ir, f).Some? ==> forall g :: g in Parts(ir, f).value <==> Needs(ir, f, g)
    ensures Parts(ir, f).None? ==> forall g :: !Needs(ir, f, g)
  {
    var c := ir[f.expression].children;
    if Parts(ir, f).Some? {
      var parts := Parts(ir, f).value;
      forall g ensures g in parts <==> Needs(ir, f, g) {
        if g in parts {
          var k: nat :| k < |parts| && parts[k] == g;
          assert ir[f.expression].op.Not? || g.expression == c[k];
        }
        if Needs(ir, f, g) && !ir[f.expression].op.Not? {
          var k: nat :| k < |c| && g.expression == c[k] && (ir[f.expression].op.Implies? ==> g.positive == (k < |c| - 1));
          assert parts[k] == g;
        }
      }
    }
  }

  /** What is unfolded is what is reached and atomic. */
  lemma {:induction false} UnfoldExact(ir: Dag, f: Fact, g: Fact)
    requires Ordered(ir) && f.expression < |ir|
    ensures g in Unfold(ir, f) <==> g.expression < |ir| && Reaches(ir, f, g) && Atomic(ir, g)
    decreases f.expression, 1, 0
  {
    hide Needs, Atomic, Parts;
    PartsExact(ir, f);
    if Parts(ir, f).Some? {
      UnfoldParts(ir, f, []);
      UnfoldAllExact(ir, Parts(ir, f).value, f.expression, g);
    }
  }

  lemma {:induction false} UnfoldAllExact(ir: Dag, fs: seq<Fact>, bound: nat, g: Fact)
    requires Ordered(ir) && bound <= |ir| && forall f | f in fs :: f.expression < bound
    ensures g in UnfoldAll(ir, fs, bound) <==> g.expression < |ir| && Atomic(ir, g) && exists f :: f in fs && Reaches(ir, f, g)
    decreases bound, 0, |fs|
  {
    hide Reaches, Atomic;
    if fs != [] {
      UnfoldExact(ir, fs[0], g);
      UnfoldAllExact(ir, fs[1..], bound, g);
      assert fs == [fs[0]] + fs[1..];
    }
  }

  /** Exactly the atomic facts that the roots need, in one or more steps, are reported. */
  lemma {:induction false} RequiredExact(ir: Dag, roots: seq<nat>, g: Fact)
    requires Ordered(ir) && forall r | r in roots :: r < |ir|
    ensures g in Required(ir, roots) <==>
              g.expression < |ir| && Atomic(ir, g) && exists r :: r in roots && r < |ir| && Reaches(ir, Fact(r, true), g)
  {
    hide Reaches, Atomic, UnfoldAll;
    var unfolded := UnfoldAll(ir, RootFacts(roots), |ir|);
    GatherExact([], unfolded);
    UnfoldAllExact(ir, RootFacts(roots), |ir|, g);
    if f :| f in RootFacts(roots) && Reaches(ir, f, g) {
      assert f.expression in roots && f == Fact(f.expression, true);
    }
    if r :| r in roots && r < |ir| && Reaches(ir, Fact(r, true), g) {
      var k: nat :| k < |roots| && roots[k] == r;
      assert RootFacts(roots)[k] == Fact(r, true);
    }
  }

  /** The stack as a list, next fact first. */
  ghost function FromTop(pending: seq<Fact>): (fs: seq<Fact>)
    ensures |fs| == |pending| && forall i | 0 <= i < |fs| :: fs[i] == pending[|pending| - 1 - i]
  {
    seq(|pending|, i requires 0 <= i < |pending| => pending[|pending| - 1 - i])
  }

  lemma {:induction false} FromTopPush(pending: seq<Fact>, f: Fact)
    ensures FromTop(pending + [f]) == [f] + FromTop(pending)
  {
  }

  ghost predicate InRange(ir: Dag, fs: seq<Fact>) {
    forall f | f in fs :: f.expression < |ir|
  }

  /** Everything required by a visited fact is reported, or hangs on the first `k` waiting
      facts, which lie strictly below it. */
  ghost predicate SettledWithin(ir: Dag, facts: seq<Fact>, waiting: seq<Fact>, v: Fact, k: nat)
    requires Ordered(ir) && InRange(ir, waiting) && v.expression < |ir|
  {
    && k <= |waiting| && (forall i | 0 <= i < k :: waiting[i].expression < v.expression)
    && forall x | x in Unfold(ir, v) :: x in facts || x in UnfoldAll(ir, waiting[..k], |ir|)
  }

  ghost predicate Settled(ir: Dag, facts: seq<Fact>, waiting: seq<Fact>, v: Fact)
    requires Ordered(ir) && InRange(ir, waiting) && v.expression < |ir|
  {
    exists k: nat :: SettledWithin(ir, facts, waiting, v, k)
  }

  ghost predicate AllSettled(ir: Dag, facts: seq<Fact>, waiting: seq<Fact>, visited: set<Fact>)
    requires Ordered(ir) && InRange(ir, waiting)
  {
    forall v | v in visited :: v.expression < |ir| && Settled(ir, facts, waiting, v)
  }

  /** Replacing the first waiting fact by parts below it, or by a report, keeps a visited fact settled. */
  lemma {:induction false} SettledStep(ir: Dag, facts: seq<Fact>, top: Fact, rest: seq<Fact>, more: seq<Fact>, parts: seq<Fact>, v: Fact)
    requires Ordered(ir) && top.expression < |ir| && InRange(ir, [top] + rest) && v.expression < |ir|
    requires Settled(ir, facts, [top] + rest, v)
    requires forall p | p in parts :: p.expression < top.expression
    requires forall x | x in facts :: x in more
    requires forall x | x in Unfold(ir, top) :: x in more || x in UnfoldAll(ir, parts, |ir|)
    ensures InRange(ir, parts + rest) && Settled(ir, more, parts + rest, v)
  {
    var waiting := [top] + rest;
    var k: nat :| SettledWithin(ir, facts, waiting, v, k);
    if k == 0 {
      assert SettledWithin(ir, more, parts + rest, v, 0);
    } else {
      assert waiting[0] == top && waiting[..k] == [top] + rest[..k - 1];
      var n := |parts| + k - 1;
      assert (parts + rest)[..n] == parts + rest[..k - 1];
      UnfoldAllConcat(ir, [top], rest[..k - 1], |ir|);
      UnfoldAllConcat(ir, parts, rest[..k - 1], |ir|);
      assert UnfoldAll(ir, [top], |ir|) == Unfold(ir, top);
      forall i | 0 <= i < n ensures (parts + rest)[i].expression < v.expression {
        if i < |parts| {
          assert parts[i] in parts;
        } else {
          assert (parts + rest)[i] == waiting[i - |parts| + 1];
        }
      }
      assert SettledWithin(ir, more, parts + rest, v, n);
    }
  }

  /** A visited fact met again has nothing left to contribute. */
  lemma {:induction false} SettledOnTop(ir: Dag, facts: seq<Fact>, top: Fact, rest: seq<Fact>)
    requires Ordered(ir) && top.expression < |ir| && InRange(ir, [top] + rest) && Settled(ir, facts, [top] + rest, top)
    ensures forall x | x in Unfold(ir, top) :: x in facts
  {
    var waiting := [top] + rest;
    assert waiting[0] == top && waiting[..0] == [];
    var k: nat :| SettledWithin(ir, facts, waiting, top, k);
  }

  /** One visit: the parts of an unvisited top replace it, and it joins the visited. */
  lemma {:induction false} VisitStep(ir: Dag, facts: seq<Fact>, top: Fact, rest: seq<Fact>, visited: set<Fact>, more: seq<Fact>, parts: seq<Fact>)
    requires Ordered(ir) && top.expression < |ir| && InRange(ir, [top] + rest) && AllSettled(ir, facts, [top] + rest, visited)
    requires forall p | p in parts :: p.expression < top.expression
    requires if parts == [] then more == Gather(facts, Unfold(ir, top))
             else more == facts && Unfold(ir, top) == UnfoldAll(ir, parts, |ir|)
    ensures InRange(ir, parts + rest) && AllSettled(ir, more, parts + rest, visited + {top})
    ensures Gather(more, UnfoldAll(ir, parts + rest, |ir|)) == Gather(facts, UnfoldAll(ir, [top] + rest, |ir|))
  {
    var unfolded := Unfold(ir, top);
    GatherMembers(facts, unfolded);
    forall v | v in visited ensures Settled(ir, more, parts + rest, v) {
      SettledStep(ir, facts, top, rest, more, parts, v);
    }
    assert (parts + rest)[..|parts|] == parts;
    forall i | 0 <= i < |parts| ensures (parts + rest)[i].expression < top.expression {
      assert parts[i] in parts;
    }
    assert SettledWithin(ir, more, parts + rest, top, |parts|);
    UnfoldAllConcat(ir, parts, rest, |ir|);
    UnfoldAllConcat(ir, [top], rest, |ir|);
    assert UnfoldAll(ir, [top], |ir|) == unfolded;
    GatherConcat(facts, unfolded, UnfoldAll(ir, rest, |ir|));
    GatherConcat(more, UnfoldAll(ir, parts, |ir|), UnfoldAll(ir, rest, |ir|));
  }

  lemma {:induction false} GatherMembers(facts: seq<Fact>, s: seq<Fact>)
    ensures forall x | x in facts || x in s :: x in Gather(facts, s)
    decreases |s|
  {
    if s != [] {
      GatherMembers(if s[0] in facts then facts else facts + [s[0]], s[1..]);
    }
  }

  lemma {:induction false} UnfoldParts(ir: Dag, f: Fact, facts: seq<Fact>)
    requires Ordered(ir) && f.expression < |ir| && Parts(ir, f).Some?
    ensures forall p | p in Parts(ir, f).value :: p.expression < f.expression
    ensures Unfold(ir, f) == UnfoldAll(ir, Parts(ir, f).value, |ir|)
    ensures Parts(ir, f).value == [] ==> facts == Gather(facts, Unfold(ir, f))
  {
    UnfoldAllBound(ir, Parts(ir, f).value, f.expression);
  }

  lemma {:induction false} UnfoldLeaf(ir: Dag, f: Fact, facts: seq<Fact>)
    requires Ordered(ir) && f.expression < |ir| && Parts(ir, f).None? && f !in facts
    ensures Gather(facts, Unfold(ir, f)) == facts + [f]
  {
  }

  lemma {:induction false} GatherNothing(ir: Dag, facts: seq<Fact>)
    requires Ordered(ir)
    ensures Gather(facts, UnfoldAll(ir, [], |ir|)) == facts
  {
  }

  /** Push so that the first fact of the list is met first. */
  method PushAll(pending: seq<Fact>, fs: seq<Fact>) returns (next: seq<Fact>)
    ensures FromTop(next) == fs + FromTop(pending)
  {
    next := pending;
    var i := |fs|;
    while i > 0
      invariant 0 <= i <= |fs| && FromTop(next) == fs[i..] + FromTop(pending)
    {
      assert fs[i - 1..] == [fs[i - 1]] + fs[i..];
      FromTopPush(next, fs[i - 1]);
      next := next + [fs[i - 1]];
      i := i - 1;
    }
  }

  /** Facts over the terms of a DAG. */
  ghost function Universe(n: nat): (s: set<Fact>)
    ensures forall f: Fact :: f in s <==> f.expression < n
  {
    set x, b | x in Below(n) && b in {true, false} :: Fact(x, b)
  }

  method Extract(ir: Dag, roots: seq<nat>) returns (facts: seq<Fact>)
    requires Ordered(ir) && forall r | r in roots :: r < |ir|
    ensures facts == Required(ir, roots)
  {
    hide Gather, UnfoldAll, Settled, Unfold;
    var pending := PushAll([], RootFacts(roots));
    var visited: set<Fact> := {};
    facts := [];
    assert FromTop(pending) == RootFacts(roots);
    while pending != []
      invariant InRange(ir, FromTop(pending)) && AllSettled(ir, facts, FromTop(pending), visited)
      invariant forall f | f in facts :: f in visited
      invariant Gather(facts, UnfoldAll(ir, FromTop(pending), |ir|)) == Required(ir, roots)
      decreases Universe(|ir|) - visited, |pending|
    {
      var fact, rest := pending[|pending| - 1], pending[..|pending| - 1];
      assert FromTop(pending) == [fact] + FromTop(rest);
      assert fact == FromTop(pending)[0];
      pending := rest;
      if fact in visited {
        SettledOnTop(ir, facts, fact, FromTop(rest));
        GatherKnown(facts, Unfold(ir, fact));
        VisitStep(ir, facts, fact, FromTop(rest), visited, facts, []);
        assert [] + FromTop(rest) == FromTop(rest) && visited + {fact} == visited;
        continue;
      }
      var parts := Parts(ir, fact);
      if parts.Some? {
        UnfoldParts(ir, fact, facts);
        VisitStep(ir, facts, fact, FromTop(rest), visited, facts, parts.value);
        pending := PushAll(pending, parts.value);
      } else {
        UnfoldLeaf(ir, fact, facts);
        VisitStep(ir, facts, fact, FromTop(rest), visited, facts + [fact], []);
        assert [] + FromTop(rest) == FromTop(rest);
        facts := facts + [fact];
      }
      visited := visited + {fact};
    }
    assert FromTop(pending) == [];
    GatherNothing(ir, facts);
  }
}
