/** Expansion of conjunctions through one-step resolution edges, which may be cyclic. */
module ResolvedConjunction {
  import opened Basics
  import opened Terms
  import opened FirstOccurrences

  /** A DAG and a one-step substitution; the identity when there is none. */
  datatype System = System(ir: Dag, resolve: nat -> nat) {
    ghost predicate Valid() {
      Ordered(ir) && forall id: nat | id < |ir| :: resolve(id) < |ir|
    }

    predicate Leaf(id: nat)
      requires id < |ir|
    {
      resolve(id) == id && !ir[id].op.And?
    }

    /** What the conjunct is the conjunction of. */
    function Next(id: nat): seq<nat>
      requires id < |ir|
    {
      if resolve(id) != id then [resolve(id)] else if ir[id].op.And? then ir[id].children else []
    }
  }

  predicate InRange(sys: System, ids: seq<nat>) {
    forall i | 0 <= i < |ids| :: ids[i] < |sys.ir|
  }

  /** The leaves below a conjunct, repetitions included, if no branch is deeper than `depth`. */
  function Unfold(sys: System, depth: nat, id: nat): Option<seq<nat>>
    requires sys.Valid() && id < |sys.ir|
    decreases depth, 0
  {
    if depth == 0 then None
    else if sys.Leaf(id) then Some([id])
    else
      UnfoldAll(sys, depth - 1, sys.Next(id))
  }

  function UnfoldAll(sys: System, depth: nat, ids: seq<nat>): Option<seq<nat>>
    requires sys.Valid() && InRange(sys, ids)
    decreases depth, 1, |ids|
  {
    if ids == [] then Some([]) else
    var first, rest := Unfold(sys, depth, ids[0]), UnfoldAll(sys, depth, ids[1..]);
    if first.Some? && rest.Some? then Some(first.value + rest.value) else None
  }

  lemma {:induction false} UnfoldDeeper(sys: System, depth: nat, more: nat, id: nat)
    requires sys.Valid() && id < |sys.ir| && depth <= more && Unfold(sys, depth, id).Some?
    ensures Unfold(sys, more, id) == Unfold(sys, depth, id)
    decreases depth, 0
  {
    if !sys.Leaf(id) {
      UnfoldAllDeeper(sys, depth - 1, more - 1, sys.Next(id));
    }
  }

  lemma {:induction false} UnfoldAllDeeper(sys: System, depth: nat, more: nat, ids: seq<nat>)
    requires sys.Valid() && InRange(sys, ids) && depth <= more && UnfoldAll(sys, depth, ids).Some?
    ensures UnfoldAll(sys, more, ids) == UnfoldAll(sys, depth, ids)
    decreases depth, 1, |ids|
  {
    if ids != [] {
      UnfoldDeeper(sys, depth, more, ids[0]);
      UnfoldAllDeeper(sys, depth, more, ids[1..]);
    }
  }

  lemma {:induction false} UnfoldAllConcat(sys: System, depth: nat, xs: seq<nat>, ys: seq<nat>)
    requires sys.Valid() && InRange(sys, xs + ys)
    ensures InRange(sys, xs) && InRange(sys, ys)
    ensures UnfoldAll(sys, depth, xs + ys).Some? <==> UnfoldAll(sys, depth, xs).Some? && UnfoldAll(sys, depth, ys).Some?
    ensures UnfoldAll(sys, depth, xs + ys).Some? ==>
      UnfoldAll(sys, depth, xs + ys).value == UnfoldAll(sys, depth, xs).value + UnfoldAll(sys, depth, ys).value
    decreases |xs|
  {
    assert forall i | 0 <= i < |xs| :: xs[i] == (xs + ys)[i];
    assert forall i | 0 <= i < |ys| :: ys[i] == (xs + ys)[|xs| + i];
    if xs == [] {
      assert xs + ys == ys;
    } else {
      assert (xs + ys)[1..] == xs[1..] + ys;
      UnfoldAllConcat(sys, depth, xs[1..], ys);
    }
  }

  lemma {:induction false} UnfoldAllEach(sys: System, depth: nat, ids: seq<nat>, atoms: seq<nat>)
    requires sys.Valid() && InRange(sys, ids)
    requires forall x | x in ids :: UnfoldedInto(sys, depth, x, atoms)
    ensures UnfoldAll(sys, depth, ids).Some? && forall x | x in UnfoldAll(sys, depth, ids).value :: x in atoms
    decreases |ids|
  {
    if ids != [] {
      UnfoldAllEach(sys, depth, ids[1..], atoms);
      assert ids[0] in ids;
    }
  }

  /** The conjunct unfolds within the depth, into leaves already listed. */
  ghost predicate UnfoldedInto(sys: System, depth: nat, id: nat, atoms: seq<nat>)
    requires sys.Valid()
  {
    id < |sys.ir| && Unfold(sys, depth, id).Some? && forall x | x in Unfold(sys, depth, id).value :: x in atoms
  }

  /** Each resolution step preserves truth, and conjunctions are read as such. */
  ghost predicate Respects(sys: System, holds: nat -> bool) {
    forall id: nat | id < |sys.ir| ::
      holds(sys.resolve(id)) == holds(id) &&
      (sys.ir[id].op.And? ==> (holds(id) <==> forall x | x in sys.ir[id].children :: holds(x)))
  }

  lemma {:induction false} UnfoldEquivalent(sys: System, holds: nat -> bool, depth: nat, id: nat)
    requires sys.Valid() && Respects(sys, holds) && id < |sys.ir| && Unfold(sys, depth, id).Some?
    ensures holds(id) <==> forall x | x in Unfold(sys, depth, id).value :: holds(x)
    decreases depth, 0
  {
    if !sys.Leaf(id) {
      UnfoldAllEquivalent(sys, holds, depth - 1, sys.Next(id));
      assert holds(id) <==> forall x | x in sys.Next(id) :: holds(x);
    }
  }

  lemma {:induction false} UnfoldAllEquivalent(sys: System, holds: nat -> bool, depth: nat, ids: seq<nat>)
    requires sys.Valid() && Respects(sys, holds) && InRange(sys, ids) && UnfoldAll(sys, depth, ids).Some?
    ensures (forall x | x in ids :: holds(x)) <==> forall x | x in UnfoldAll(sys, depth, ids).value :: holds(x)
    decreases depth, 1, |ids|
  {
    if ids != [] {
      UnfoldEquivalent(sys, holds, depth, ids[0]);
      UnfoldAllEquivalent(sys, holds, depth, ids[1..]);
      assert forall x :: x in ids <==> x == ids[0] || x in ids[1..];
      var first, rest := Unfold(sys, depth, ids[0]).value, UnfoldAll(sys, depth, ids[1..]).value;
      assert forall x :: x in first + rest <==> x in first || x in rest;
    }
  }

  ghost predicate Path(sys: System, p: seq<nat>) {
    InRange(sys, p) && forall i | 0 <= i < |p| - 1 :: EdgeAt(sys, p, i)
  }

  ghost predicate EdgeAt(sys: System, p: seq<nat>, i: int)
    requires InRange(sys, p) && 0 <= i < |p| - 1
  {
    p[i + 1] in sys.Next(p[i])
  }

  /** Some path from a root meets one of its own terms again. */
  ghost predicate Cyclic(sys: System, roots: seq<nat>) {
    exists p: seq<nat>, i: nat :: Returning(sys, roots, p, i)
  }

  ghost predicate Returning(sys: System, roots: seq<nat>, p: seq<nat>, i: nat) {
    Path(sys, p) && i < |p| - 1 && p[i] == p[|p| - 1] && p[0] in roots
  }

  lemma {:induction false} UnfoldMember(sys: System, depth: nat, ids: seq<nat>, x: nat)
    requires sys.Valid() && InRange(sys, ids) && x in ids && UnfoldAll(sys, depth, ids).Some?
    ensures Unfold(sys, depth, x).Some?
    decreases |ids|
  {
    if x != ids[0] {
      assert ids == [ids[0]] + ids[1..];
      UnfoldMember(sys, depth, ids[1..], x);
    }
  }

  /** Along a path the remaining depth shrinks with every step. */
  lemma {:induction false} Descend(sys: System, depth: nat, p: seq<nat>, n: nat)
    requires sys.Valid() && Path(sys, p) && n < |p| && Unfold(sys, depth, p[0]).Some?
    ensures depth > n && Unfold(sys, depth - n, p[n]).Some?
  {
    if n > 0 {
      Descend(sys, depth, p, n - 1);
      assert EdgeAt(sys, p, n - 1);
      UnfoldMember(sys, depth - n, sys.Next(p[n - 1]), p[n]);
    }
  }

  lemma {:induction false} CycleNeverUnfolds(sys: System, depth: nat, p: seq<nat>)
    requires sys.Valid() && Path(sys, p) && |p| > 1 && p[0] == p[|p| - 1]
    ensures Unfold(sys, depth, p[0]).None?
    decreases depth
  {
    if Unfold(sys, depth, p[0]).Some? {
      Descend(sys, depth, p, |p| - 1);
      CycleNeverUnfolds(sys, depth - (|p| - 1), p);
      assert false;
    }
  }

  /** What unfolds within some depth lies on no cycle. */
  lemma {:induction false} UnfoldedAcyclic(sys: System, depth: nat, roots: seq<nat>)
    requires sys.Valid() && InRange(sys, roots) && UnfoldAll(sys, depth, roots).Some?
    ensures !Cyclic(sys, roots)
  {
    forall p: seq<nat>, i: nat | Returning(sys, roots, p, i) ensures false {
      UnfoldMember(sys, depth, roots, p[0]);
      Descend(sys, depth, p, i);
      var loop := p[i..];
      forall k | 0 <= k < |loop| - 1 ensures EdgeAt(sys, loop, k) {
        assert EdgeAt(sys, p, i + k);
      }
      CycleNeverUnfolds(sys, depth - i, loop);
    }
  }

  datatype Visit = Visit(id: nat, leaving: bool)
  datatype State = Active | Complete

  /** The terms entered and not left, outermost first. */
  ghost function Trail(pending: seq<Visit>): seq<nat> {
    if pending == [] then [] else
    var top := pending[|pending| - 1];
    Trail(pending[..|pending| - 1]) + if top.leaving then [top.id] else []
  }

  /** The terms waiting to be entered, next one first. */
  ghost function Todo(pending: seq<Visit>): seq<nat> {
    if pending == [] then [] else
    var top := pending[|pending| - 1];
    (if top.leaving then [] else [top.id]) + Todo(pending[..|pending| - 1])
  }

  lemma {:induction false} TrailPush(pending: seq<Visit>, v: Visit)
    ensures Trail(pending + [v]) == Trail(pending) + if v.leaving then [v.id] else []
    ensures Todo(pending + [v]) == (if v.leaving then [] else [v.id]) + Todo(pending)
  {
    assert (pending + [v])[..|pending|] == pending;
  }

  ghost predicate Linked(sys: System, roots: seq<nat>, trail: seq<nat>, id: nat) {
    id < |sys.ir| &&
    if trail == [] then id in roots else trail[|trail| - 1] < |sys.ir| && id in sys.Next(trail[|trail| - 1])
  }

  /** Every entry is a root or a successor of the term being expanded below it. */
  ghost predicate Chained(sys: System, roots: seq<nat>, pending: seq<Visit>) {
    pending == [] ||
    (Chained(sys, roots, pending[..|pending| - 1]) &&
     Linked(sys, roots, Trail(pending[..|pending| - 1]), pending[|pending| - 1].id))
  }

  lemma {:induction false} TrailIsPath(sys: System, roots: seq<nat>, pending: seq<Visit>)
    requires Chained(sys, roots, pending)
    ensures Path(sys, Trail(pending)) && (Trail(pending) != [] ==> Trail(pending)[0] in roots)
    decreases |pending|
  {
    if pending != [] {
      var below, top := pending[..|pending| - 1], pending[|pending| - 1];
      TrailIsPath(sys, roots, below);
      if top.leaving {
        PathExtends(sys, roots, Trail(below), top.id);
        assert Trail(pending) == Trail(below) + [top.id];
      } else {
        assert Trail(pending) == Trail(below);
      }
    }
  }

  lemma {:induction false} PathExtends(sys: System, roots: seq<nat>, trail: seq<nat>, id: nat)
    requires Path(sys, trail) && (trail != [] ==> trail[0] in roots) && Linked(sys, roots, trail, id)
    ensures Path(sys, trail + [id]) && (trail + [id])[0] in roots
  {
    var p := trail + [id];
    forall i | 0 <= i < |p| - 1 ensures EdgeAt(sys, p, i) {
      if i < |trail| - 1 {
        assert EdgeAt(sys, trail, i);
      }
    }
  }

  /** A term entered again before it was left closes a cycle. */
  lemma {:induction false} ReentryIsCycle(sys: System, roots: seq<nat>, below: seq<Visit>, id: nat)
    requires Chained(sys, roots, below) && Linked(sys, roots, Trail(below), id) && id in Trail(below)
    ensures Cyclic(sys, roots)
  {
    TrailIsPath(sys, roots, below);
    PathExtends(sys, roots, Trail(below), id);
    var p := Trail(below) + [id];
    var i: nat :| i < |Trail(below)| && Trail(below)[i] == id;
    assert Returning(sys, roots, p, i);
  }

  /** A successor is complete, or waits above position `i`. */
  ghost predicate Handled(order: seq<nat>, pending: seq<Visit>, i: int, x: nat) {
    x in order || exists j: nat :: i < j < |pending| && pending[j].id == x
  }

  ghost predicate HandledFrom(sys: System, order: seq<nat>, pending: seq<Visit>, i: nat)
    requires i < |pending|
  {
    pending[i].leaving ==> pending[i].id < |sys.ir| && forall x | x in sys.Next(pending[i].id) :: Handled(order, pending, i, x)
  }

  ghost predicate AllHandled(sys: System, order: seq<nat>, pending: seq<Visit>) {
    forall i: nat | i < |pending| :: HandledFrom(sys, order, pending, i)
  }

  ghost predicate RootsHandled(roots: seq<nat>, order: seq<nat>, pending: seq<Visit>) {
    forall r | r in roots :: Handled(order, pending, -1, r)
  }

  /** Replacing the top by entries that begin with its id, or completing its id, keeps successors handled. */
  lemma {:induction false} HandledStep(sys: System, roots: seq<nat>, order: seq<nat>, below: seq<Visit>, top: Visit, more: seq<nat>, next: seq<Visit>)
    requires AllHandled(sys, order, below + [top]) && RootsHandled(roots, order, below + [top]) && below <= next
    requires forall x | x in order :: x in more
    requires top.id in more || (|next| > |below| && next[|below|].id == top.id)
    requires forall i: nat | |below| <= i < |next| :: HandledFrom(sys, more, next, i)
    ensures AllHandled(sys, more, next) && RootsHandled(roots, more, next)
  {
    var pending := below + [top];
    forall r | r in roots ensures Handled(more, next, -1, r) {
    }
    forall i: nat | i < |next| ensures HandledFrom(sys, more, next, i) {
      if i < |below| && next[i].leaving {
        assert HandledFrom(sys, order, pending, i) && pending[i] == next[i];
        forall x | x in sys.Next(next[i].id) ensures Handled(more, next, i, x) {
        }
      }
    }
  }

  /** Unfolding what is left, after what is listed, gives what the roots give. */
  ghost predicate Faithful(sys: System, roots: seq<nat>, atoms: seq<nat>, todo: seq<nat>, depth: nat)
    requires sys.Valid() && InRange(sys, roots) && InRange(sys, todo)
  {
    UnfoldAll(sys, depth, roots).Some? ==>
      UnfoldAll(sys, depth, todo).Some? &&
      Gather(atoms, UnfoldAll(sys, depth, todo).value) == Gather([], UnfoldAll(sys, depth, roots).value)
  }

  ghost predicate AlwaysFaithful(sys: System, roots: seq<nat>, atoms: seq<nat>, todo: seq<nat>)
    requires sys.Valid() && InRange(sys, roots) && InRange(sys, todo)
  {
    forall depth: nat :: Faithful(sys, roots, atoms, todo, depth)
  }

  /** A complete term met again contributes nothing. */
  lemma {:induction false} FaithfulSkip(sys: System, roots: seq<nat>, atoms: seq<nat>, id: nat, todo: seq<nat>, depth: nat, known: nat)
    requires sys.Valid() && InRange(sys, roots) && InRange(sys, [id] + todo)
    requires Faithful(sys, roots, atoms, [id] + todo, depth) && UnfoldedInto(sys, known, id, atoms)
    ensures InRange(sys, todo) && Faithful(sys, roots, atoms, todo, depth)
  {
    UnfoldAllConcat(sys, depth, [id], todo);
    if UnfoldAll(sys, depth, roots).Some? {
      UnfoldOne(sys, depth, id);
      UnfoldDeeper(sys, depth, depth + known, id);
      UnfoldDeeper(sys, known, depth + known, id);
      var unfolded := Unfold(sys, depth, id).value;
      GatherKnown(atoms, unfolded);
      GatherConcat(atoms, unfolded, UnfoldAll(sys, depth, todo).value);
    }
  }

  lemma {:induction false} UnfoldOne(sys: System, depth: nat, id: nat)
    requires sys.Valid() && id < |sys.ir|
    ensures InRange(sys, [id]) && UnfoldAll(sys, depth, [id]) == Unfold(sys, depth, id)
  {
    var ids := [id];
    assert UnfoldAll(sys, depth, ids[1..]) == Some([]);
    if Unfold(sys, depth, id).Some? {
      assert Unfold(sys, depth, id).value + [] == Unfold(sys, depth, id).value;
    }
  }

  /** A leaf is listed. */
  lemma {:induction false} FaithfulLeaf(sys: System, roots: seq<nat>, atoms: seq<nat>, id: nat, todo: seq<nat>, depth: nat)
    requires sys.Valid() && InRange(sys, roots) && InRange(sys, [id] + todo) && id < |sys.ir| && sys.Leaf(id) && id !in atoms
    requires Faithful(sys, roots, atoms, [id] + todo, depth)
    ensures InRange(sys, todo) && Faithful(sys, roots, atoms + [id], todo, depth)
  {
    UnfoldAllConcat(sys, depth, [id], todo);
    UnfoldOne(sys, depth, id);
    if UnfoldAll(sys, depth, roots).Some? {
      GatherConcat(atoms, [id], UnfoldAll(sys, depth, todo).value);
      assert Gather(atoms, [id]) == Gather(atoms + [id], [id][1..]);
    }
  }

  /** Any other term is replaced by its successors. */
  lemma {:induction false} FaithfulExpand(sys: System, roots: seq<nat>, atoms: seq<nat>, id: nat, todo: seq<nat>, depth: nat)
    requires sys.Valid() && InRange(sys, roots) && InRange(sys, [id] + todo) && id < |sys.ir| && !sys.Leaf(id)
    requires Faithful(sys, roots, atoms, [id] + todo, depth)
    ensures InRange(sys, sys.Next(id) + todo) && Faithful(sys, roots, atoms, sys.Next(id) + todo, depth)
  {
    hide Gather;
    ExpandOnce(sys, depth, id);
    UnfoldAllConcat(sys, depth, [id], todo);
    UnfoldAllConcat(sys, depth, sys.Next(id), todo);
    UnfoldOne(sys, depth, id);
    hide UnfoldAll, Unfold;
  }

  lemma {:induction false} ExpandOnce(sys: System, depth: nat, id: nat)
    requires sys.Valid() && id < |sys.ir| && !sys.Leaf(id)
    ensures InRange(sys, sys.Next(id))
    ensures Unfold(sys, depth, id).Some? ==> UnfoldAll(sys, depth, sys.Next(id)) == Unfold(sys, depth, id)
  {
    if Unfold(sys, depth, id).Some? {
      UnfoldAllDeeper(sys, depth - 1, depth, sys.Next(id));
    }
  }

  /** The stack: a path of entered terms, whose successors are complete or waiting. */
  ghost predicate Stacked(sys: System, roots: seq<nat>, pending: seq<Visit>, order: seq<nat>) {
    Chained(sys, roots, pending) && AllHandled(sys, order, pending) && RootsHandled(roots, order, pending)
    && Basics.Distinct(Trail(pending))
  }

  /** The marks tell the entered terms from the completed ones. */
  ghost predicate Marked(states: map<nat, State>, trail: seq<nat>, order: seq<nat>) {
    && (forall x :: x in states && states[x].Active? <==> x in trail)
    && (forall x :: x in states && states[x].Complete? <==> x in order)
  }

  /** Completed terms unfold into the listed leaves, and every marked leaf is listed. */
  ghost predicate Listed(sys: System, states: map<nat, State>, atoms: seq<nat>, order: seq<nat>)
    requires sys.Valid()
  {
    && (forall x | x in order :: UnfoldedInto(sys, |order|, x, atoms))
    && (forall x | x in atoms :: x in states)
    && forall x | x in states :: x < |sys.ir| && (sys.Leaf(x) ==> x in atoms)
  }

  /** Push so that the first id of the list is entered first. */
  method PushFresh(sys: System, ghost roots: seq<nat>, pending: seq<Visit>, ids: seq<nat>) returns (next: seq<Visit>)
    requires Chained(sys, roots, pending) && forall i | 0 <= i < |ids| :: Linked(sys, roots, Trail(pending), ids[i])
    ensures pending <= next && forall i | |pending| <= i < |next| :: !next[i].leaving
    ensures forall x | x in ids :: exists j: nat :: |pending| <= j < |next| && next[j].id == x
    ensures Chained(sys, roots, next) && Trail(next) == Trail(pending) && Todo(next) == ids + Todo(pending)
  {
    hide Chained, Trail, Todo, Linked;
    next := pending;
    var i := |ids|;
    while i > 0
      invariant 0 <= i <= |ids| && pending <= next && |next| == |pending| + |ids| - i
      invariant forall j | i <= j < |ids| :: next[|pending| + |ids| - 1 - j].id == ids[j]
      invariant forall j | |pending| <= j < |next| :: !next[j].leaving
      invariant Chained(sys, roots, next) && Trail(next) == Trail(pending) && Todo(next) == ids[i..] + Todo(pending)
    {
      assert ids[i - 1..] == [ids[i - 1]] + ids[i..];
      TrailPush(next, Visit(ids[i - 1], false));
      ChainedPush(sys, roots, next, Visit(ids[i - 1], false));
      next := next + [Visit(ids[i - 1], false)];
      i := i - 1;
    }
    forall x | x in ids ensures exists j: nat :: |pending| <= j < |next| && next[j].id == x {
      var k :| 0 <= k < |ids| && ids[k] == x;
      assert next[|pending| + |ids| - 1 - k].id == x;
    }
  }

  lemma {:induction false} ChainedPush(sys: System, roots: seq<nat>, pending: seq<Visit>, v: Visit)
    ensures Chained(sys, roots, pending + [v]) <==> Chained(sys, roots, pending) && Linked(sys, roots, Trail(pending), v.id)
  {
    assert (pending + [v])[..|pending|] == pending;
  }

  /** Leaving the top term completes it: nothing below it changes. */
  lemma {:induction false} LeaveStack(sys: System, roots: seq<nat>, below: seq<Visit>, id: nat, order: seq<nat>)
    requires sys.Valid() && Stacked(sys, roots, below + [Visit(id, true)], order)
    ensures Stacked(sys, roots, below, order + [id]) && id !in Trail(below)
    ensures id < |sys.ir| && forall x | x in sys.Next(id) :: x in order
  {
    hide Chained, Trail, HandledFrom;
    var top := Visit(id, true);
    TrailPush(below, top);
    ChainedPush(sys, roots, below, top);
    DistinctSnoc(Trail(below), id);
    HandledStep(sys, roots, order, below, top, order + [id], below);
    TopHandled(sys, below, top, order);
  }

  lemma {:induction false} TopHandled(sys: System, below: seq<Visit>, top: Visit, order: seq<nat>)
    requires AllHandled(sys, order, below + [top]) && top.leaving
    ensures top.id < |sys.ir| && forall x | x in sys.Next(top.id) :: x in order
  {
    var pending := below + [top];
    assert HandledFrom(sys, order, pending, |below|) && pending[|below|] == top;
    forall x | x in sys.Next(top.id) ensures x in order {
      assert Handled(order, pending, |below|, x);
    }
  }

  lemma {:induction false} LeaveListed(sys: System, id: nat, states: map<nat, State>, atoms: seq<nat>, order: seq<nat>)
    requires sys.Valid() && Listed(sys, states, atoms, order) && id in states && forall x | x in sys.Next(id) :: x in order
    ensures Listed(sys, states[id := Complete], atoms, order + [id])
  {
    var done := order + [id];
    if !sys.Leaf(id) {
      UnfoldAllEach(sys, |order|, sys.Next(id), atoms);
    }
    assert UnfoldedInto(sys, |done|, id, atoms);
    forall x | x in done ensures UnfoldedInto(sys, |done|, x, atoms) {
      if x != id {
        assert UnfoldedInto(sys, |order|, x, atoms);
        UnfoldDeeper(sys, |order|, |done|, x);
      }
    }
  }

  /** Entering a term puts its own leaving entry, then its successors, on the stack. */
  lemma {:induction false} EnterStack(sys: System, roots: seq<nat>, below: seq<Visit>, id: nat, order: seq<nat>, next: seq<Visit>)
    requires sys.Valid() && Stacked(sys, roots, below + [Visit(id, false)], order) && id !in Trail(below) && id < |sys.ir|
    requires below + [Visit(id, true)] <= next && forall i | |below| < i < |next| :: !next[i].leaving
    requires forall x | x in sys.Next(id) :: exists j: nat :: |below| < j < |next| && next[j].id == x
    requires Chained(sys, roots, next) && Trail(next) == Trail(below) + [id]
    ensures Stacked(sys, roots, next, order)
  {
    hide Chained, Trail;
    var top := Visit(id, false);
    TrailPush(below, top);
    DistinctSnoc(Trail(below), id);
    assert next[|below|] == Visit(id, true);
    assert below <= next && Trail(below) + [] == Trail(below);
    forall i: nat | |below| <= i < |next| ensures HandledFrom(sys, order, next, i) {
      if i == |below| {
        forall x | x in sys.Next(id) ensures Handled(order, next, i, x) {
        }
      }
    }
    HandledStep(sys, roots, order, below, top, order, next);
  }

  lemma {:induction false} EnterListed(sys: System, id: nat, states: map<nat, State>, atoms: seq<nat>, order: seq<nat>, more: seq<nat>)
    requires sys.Valid() && Listed(sys, states, atoms, order) && id < |sys.ir|
    requires more == atoms + if sys.Leaf(id) then [id] else []
    ensures Listed(sys, states[id := Active], more, order)
  {
    forall x | x in order ensures UnfoldedInto(sys, |order|, x, more) {
      assert UnfoldedInto(sys, |order|, x, atoms);
    }
  }

  /** Meeting a complete term again changes nothing. */
  lemma {:induction false} SkipStack(sys: System, roots: seq<nat>, below: seq<Visit>, id: nat, order: seq<nat>)
    requires sys.Valid() && Stacked(sys, roots, below + [Visit(id, false)], order) && id in order
    ensures Stacked(sys, roots, below, order)
  {
    hide Chained, Trail;
    var top := Visit(id, false);
    TrailPush(below, top);
    ChainedPush(sys, roots, below, top);
    assert Trail(below) + [] == Trail(below);
    HandledStep(sys, roots, order, below, top, order, below);
  }

  /** The result: no repetitions, roots' order, and nothing exactly on a cycle. */
  ghost predicate Expansion(sys: System, roots: seq<nat>, result: Option<seq<nat>>)
    requires sys.Valid() && InRange(sys, roots)
  {
    match result
    case None => Cyclic(sys, roots)
    case Some(atoms) => !Cyclic(sys, roots) && exists depth: nat :: UnfoldsTo(sys, depth, roots, atoms)
  }

  ghost predicate UnfoldsTo(sys: System, depth: nat, roots: seq<nat>, atoms: seq<nat>)
    requires sys.Valid() && InRange(sys, roots)
  {
    UnfoldAll(sys, depth, roots).Some? && atoms == Gather([], UnfoldAll(sys, depth, roots).value)
  }

  /** The expansion is equivalent to the roots whenever each resolution step preserves truth. */
  lemma {:induction false} ExpansionEquivalent(sys: System, roots: seq<nat>, atoms: seq<nat>, holds: nat -> bool)
    requires sys.Valid() && InRange(sys, roots) && Expansion(sys, roots, Some(atoms)) && Respects(sys, holds)
    ensures (forall r | r in roots :: holds(r)) <==> forall a | a in atoms :: holds(a)
    ensures Basics.Distinct(atoms)
  {
    var depth: nat :| UnfoldsTo(sys, depth, roots, atoms);
    UnfoldAllEquivalent(sys, holds, depth, roots);
    GatherExact([], UnfoldAll(sys, depth, roots).value);
  }

  /** Everything is complete: the roots unfold into the listed leaves. */
  lemma {:induction false} Finished(sys: System, roots: seq<nat>, states: map<nat, State>, atoms: seq<nat>, order: seq<nat>)
    requires sys.Valid() && InRange(sys, roots) && Invariant(sys, roots, [], states, atoms, order)
    ensures Expansion(sys, roots, Some(atoms))
  {
    forall r | r in roots ensures UnfoldedInto(sys, |order|, r, atoms) {
      assert Handled(order, [], -1, r);
    }
    UnfoldAllEach(sys, |order|, roots, atoms);
    UnfoldedAcyclic(sys, |order|, roots);
    assert Faithful(sys, roots, atoms, [], |order|);
    assert UnfoldsTo(sys, |order|, roots, atoms);
  }

  lemma {:induction false} Start(sys: System, roots: seq<nat>, pending: seq<Visit>)
    requires sys.Valid() && InRange(sys, roots) && Chained(sys, roots, pending) && Trail(pending) == [] && Todo(pending) == roots + []
    requires forall i | 0 <= i < |pending| :: !pending[i].leaving
    requires forall x | x in roots :: exists j: nat :: 0 <= j < |pending| && pending[j].id == x
    ensures Invariant(sys, roots, pending, map[], [], [])
  {
    assert Todo(pending) == roots;
    forall r | r in roots ensures Handled([], pending, -1, r) {
    }
  }

  /** One step of the list: the next term is skipped, listed, or replaced by its successors. */
  lemma {:induction false} FaithfulStep(sys: System, roots: seq<nat>, atoms: seq<nat>, id: nat, todo: seq<nat>, known: nat)
    requires sys.Valid() && InRange(sys, roots) && InRange(sys, [id] + todo) && id < |sys.ir|
    requires AlwaysFaithful(sys, roots, atoms, [id] + todo)
    ensures InRange(sys, todo) && InRange(sys, sys.Next(id) + todo)
    ensures UnfoldedInto(sys, known, id, atoms) ==> AlwaysFaithful(sys, roots, atoms, todo)
    ensures sys.Leaf(id) && id !in atoms ==> AlwaysFaithful(sys, roots, atoms + [id], todo)
    ensures !sys.Leaf(id) ==> AlwaysFaithful(sys, roots, atoms, sys.Next(id) + todo)
  {
    hide UnfoldedInto;
    assert forall i | 0 <= i < |todo| :: todo[i] == ([id] + todo)[i + 1];
    forall depth: nat
      ensures UnfoldedInto(sys, known, id, atoms) ==> Faithful(sys, roots, atoms, todo, depth)
      ensures sys.Leaf(id) && id !in atoms ==> Faithful(sys, roots, atoms + [id], todo, depth)
      ensures !sys.Leaf(id) ==> Faithful(sys, roots, atoms, sys.Next(id) + todo, depth)
    {
      assert Faithful(sys, roots, atoms, [id] + todo, depth);
      if UnfoldedInto(sys, known, id, atoms) {
        FaithfulSkip(sys, roots, atoms, id, todo, depth, known);
      }
      if !sys.Leaf(id) {
        FaithfulExpand(sys, roots, atoms, id, todo, depth);
      } else if id !in atoms {
        FaithfulLeaf(sys, roots, atoms, id, todo, depth);
      }
    }
  }

  lemma {:induction false} Top(sys: System, roots: seq<nat>, below: seq<Visit>, top: Visit, order: seq<nat>)
    requires Stacked(sys, roots, below + [top], order)
    ensures Chained(sys, roots, below) && Linked(sys, roots, Trail(below), top.id) && top.id < |sys.ir|
    ensures Trail(below + [top]) == Trail(below) + if top.leaving then [top.id] else []
    ensures Todo(below + [top]) == (if top.leaving then [] else [top.id]) + Todo(below)
  {
    ChainedPush(sys, roots, below, top);
    TrailPush(below, top);
  }

  lemma {:induction false} EnteredLink(sys: System, roots: seq<nat>, below: seq<Visit>, id: nat)
    requires sys.Valid() && id < |sys.ir| && Chained(sys, roots, below) && Linked(sys, roots, Trail(below), id)
    ensures Chained(sys, roots, below + [Visit(id, true)])
    ensures Trail(below + [Visit(id, true)]) == Trail(below) + [id] && Todo(below + [Visit(id, true)]) == Todo(below)
    ensures forall i | 0 <= i < |sys.Next(id)| :: Linked(sys, roots, Trail(below) + [id], sys.Next(id)[i])
  {
    ChainedPush(sys, roots, below, Visit(id, true));
    TrailPush(below, Visit(id, true));
    assert [] + Todo(below) == Todo(below);
  }

  ghost predicate Invariant(sys: System, roots: seq<nat>, pending: seq<Visit>, states: map<nat, State>, atoms: seq<nat>, order: seq<nat>)
    requires sys.Valid() && InRange(sys, roots)
  {
    && Stacked(sys, roots, pending, order) && Marked(states, Trail(pending), order) && Listed(sys, states, atoms, order)
    && InRange(sys, Todo(pending)) && AlwaysFaithful(sys, roots, atoms, Todo(pending))
  }

  lemma {:induction false} LeaveTop(sys: System, roots: seq<nat>, below: seq<Visit>, id: nat, states: map<nat, State>, atoms: seq<nat>, order: seq<nat>)
    requires sys.Valid() && InRange(sys, roots) && Invariant(sys, roots, below + [Visit(id, true)], states, atoms, order)
    ensures Invariant(sys, roots, below, states[id := Complete], atoms, order + [id])
  {
    hide Stacked, AlwaysFaithful, Trail, Todo, Chained, Linked, UnfoldedInto, InRange;
    Top(sys, roots, below, Visit(id, true), order);
    assert [] + Todo(below) == Todo(below);
    assert Trail(below + [Visit(id, true)])[|Trail(below)|] == id;
    LeaveStack(sys, roots, below, id, order);
    LeaveListed(sys, id, states, atoms, order);
  }

  lemma {:induction false} SkipTop(sys: System, roots: seq<nat>, below: seq<Visit>, id: nat, states: map<nat, State>, atoms: seq<nat>, order: seq<nat>)
    requires sys.Valid() && InRange(sys, roots) && Invariant(sys, roots, below + [Visit(id, false)], states, atoms, order)
    requires id in states && states[id].Complete?
    ensures Invariant(sys, roots, below, states, atoms, order)
  {
    hide Stacked, AlwaysFaithful, Trail, Todo, Chained, Linked, UnfoldedInto, InRange;
    Top(sys, roots, below, Visit(id, false), order);
    FaithfulStep(sys, roots, atoms, id, Todo(below), |order|);
    SkipStack(sys, roots, below, id, order);
  }

  lemma {:induction false} EnterTop(sys: System, roots: seq<nat>, below: seq<Visit>, id: nat, states: map<nat, State>, atoms: seq<nat>, order: seq<nat>,
                 next: seq<Visit>, more: seq<nat>)
    requires sys.Valid() && InRange(sys, roots) && Invariant(sys, roots, below + [Visit(id, false)], states, atoms, order)
    requires id !in states && id < |sys.ir| && more == atoms + if sys.Leaf(id) then [id] else []
    requires below + [Visit(id, true)] <= next && forall i | |below| < i < |next| :: !next[i].leaving
    requires forall x | x in sys.Next(id) :: exists j: nat :: |below| < j < |next| && next[j].id == x
    requires Chained(sys, roots, next) && Trail(next) == Trail(below) + [id]
    requires Todo(next) == sys.Next(id) + Todo(below)
    ensures Invariant(sys, roots, next, states[id := Active], more, order)
  {
    hide Stacked, AlwaysFaithful, Trail, Todo, Chained, Linked, UnfoldedInto, InRange;
    Top(sys, roots, below, Visit(id, false), order);
    FaithfulStep(sys, roots, atoms, id, Todo(below), 0);
    assert Trail(below) + [] == Trail(below);
    EnterStack(sys, roots, below, id, order, next);
    EnterListed(sys, id, states, atoms, order, more);
    assert sys.Leaf(id) ==> sys.Next(id) + Todo(below) == Todo(below);
    assert atoms + [] == atoms;
  }

  method Conjuncts(sys: System, roots: seq<nat>) returns (result: Option<seq<nat>>)
    requires sys.Valid() && InRange(sys, roots)
    ensures Expansion(sys, roots, result)
  {
    hide Invariant, Trail, Todo, Chained, Linked, InRange, Expansion, Stacked, AlwaysFaithful;
    var states: map<nat, State> := map[];
    StartLinks(sys, roots);
    var pending := PushFresh(sys, roots, [], roots);
    var atoms: seq<nat> := [];
    ghost var order: seq<nat> := [];
    Start(sys, roots, pending);
    while pending != []
      invariant Invariant(sys, roots, pending, states, atoms, order)
      decreases Below(|sys.ir|) - states.Keys, |pending|
    {
      var top, below := pending[|pending| - 1], pending[..|pending| - 1];
      assert pending == below + [top];
      var id := top.id;
      Tops(sys, roots, below, top, states, atoms, order);
      if top.leaving {
        LeaveTop(sys, roots, below, id, states, atoms, order);
        assert states[id := Complete].Keys == states.Keys;
        states, order, pending := states[id := Complete], order + [id], below;
      } else if id in states {
        if states[id].Active? {
          ReentryIsCycle(sys, roots, below, id);
          Cycles(sys, roots);
          return None;
        }
        SkipTop(sys, roots, below, id, states, atoms, order);
        pending := below;
      } else {
        EnteredLink(sys, roots, below, id);
        pending := below + [Visit(id, true)];
        var more := atoms;
        if sys.Leaf(id) {
          more := atoms + [id];
          assert sys.Next(id) + Todo(below) == Todo(below);
        } else {
          pending := PushFresh(sys, roots, pending, sys.Next(id));
        }
        EnterTop(sys, roots, below, id, states, atoms, order, pending, more);
        assert id in Below(|sys.ir|) - states.Keys && states[id := Active].Keys == states.Keys + {id};
        states, atoms := states[id := Active], more;
      }
    }
    Finished(sys, roots, states, atoms, order);
    return Some(atoms);
  }

  lemma {:induction false} Cycles(sys: System, roots: seq<nat>)
    requires sys.Valid() && InRange(sys, roots) && Cyclic(sys, roots)
    ensures Expansion(sys, roots, None)
  {
  }

  lemma {:induction false} Tops(sys: System, roots: seq<nat>, below: seq<Visit>, top: Visit, states: map<nat, State>, atoms: seq<nat>, order: seq<nat>)
    requires sys.Valid() && InRange(sys, roots) && Invariant(sys, roots, below + [top], states, atoms, order)
    ensures Chained(sys, roots, below) && Linked(sys, roots, Trail(below), top.id) && top.id < |sys.ir|
    ensures states.Keys <= Below(|sys.ir|) && (top.leaving ==> top.id in states)
    ensures !top.leaving && top.id in states && states[top.id].Active? ==> top.id in Trail(below)
  {
    Top(sys, roots, below, top, order);
    assert top.leaving ==> Trail(below + [top])[|Trail(below)|] == top.id;
  }

  lemma {:induction false} StartLinks(sys: System, roots: seq<nat>)
    requires InRange(sys, roots)
    ensures Chained(sys, roots, []) && Trail([]) == [] && Todo([]) == []
    ensures forall i | 0 <= i < |roots| :: Linked(sys, roots, [], roots[i])
  {
  }

  /** One step of the expansion: a substituted term leads to what it resolves to, an unsubstituted
      conjunction to its operands. */
  ghost predicate Leads(sys: System, a: nat, b: nat)
    requires a < |sys.ir|
  {
    if sys.resolve(a) != a then b == sys.resolve(a) else sys.ir[a].op.And? && b in sys.ir[a].children
  }

  /** Neither substituted nor a conjunction. */
  predicate Conjunct(sys: System, id: nat)
    requires id < |sys.ir|
  {
    sys.resolve(id) == id && !sys.ir[id].op.And?
  }

  ghost predicate Trace(sys: System, p: seq<nat>) {
    p != [] && InRange(sys, p) && forall i | 0 <= i < |p| - 1 :: Leads(sys, p[i], p[i + 1])
  }

  ghost predicate Traces(sys: System, p: seq<nat>, a: nat, b: nat) {
    Trace(sys, p) && p[0] == a && p[|p| - 1] == b
  }

  ghost predicate Reached(sys: System, a: nat, b: nat) { exists p: seq<nat> :: Traces(sys, p, a, b) }

  /** Some trace from a root meets a term twice. */
  ghost predicate Circular(sys: System, roots: seq<nat>) {
    exists p: seq<nat>, i: nat :: Trace(sys, p) && i < |p| - 1 && p[i] == p[|p| - 1] && p[0] in roots
  }

  lemma {:induction false} StepsExact(sys: System, a: nat)
    requires a < |sys.ir|
    ensures forall b: nat :: b in sys.Next(a) <==> Leads(sys, a, b)
    ensures sys.Leaf(a) <==> Conjunct(sys, a)
  {
  }

  lemma {:induction false} PathsExact(sys: System, p: seq<nat>)
    ensures p != [] ==> (Path(sys, p) <==> Trace(sys, p))
  {
    if InRange(sys, p) {
      forall i | 0 <= i < |p| - 1 ensures EdgeAt(sys, p, i) <==> Leads(sys, p[i], p[i + 1]) {
        StepsExact(sys, p[i]);
      }
    }
  }

  lemma {:induction false} CyclesExact(sys: System, roots: seq<nat>)
    ensures Cyclic(sys, roots) <==> Circular(sys, roots)
  {
    hide Path, Trace;
    if p: seq<nat>, i: nat :| Returning(sys, roots, p, i) {
      PathsExact(sys, p);
    }
    if p: seq<nat>, i: nat :| Trace(sys, p) && i < |p| - 1 && p[i] == p[|p| - 1] && p[0] in roots {
      PathsExact(sys, p);
      assert Returning(sys, roots, p, i);
    }
  }

  lemma {:induction false} TraceOnward(sys: System, a: nat, b: nat, c: nat)
    requires a < |sys.ir| && Leads(sys, a, b) && Reached(sys, b, c)
    ensures Reached(sys, a, c)
  {
    var p: seq<nat> :| Traces(sys, p, b, c);
    var q := [a] + p;
    forall i | 0 <= i < |q| - 1 ensures Leads(sys, q[i], q[i + 1]) {
      if i > 0 {
        assert q[i] == p[i - 1] && q[i + 1] == p[i];
        assert Leads(sys, p[i - 1], p[i - 1 + 1]);
      }
    }
    assert Traces(sys, q, a, c);
  }

  lemma {:induction false} TraceTail(sys: System, p: seq<nat>, a: nat, c: nat)
    requires Traces(sys, p, a, c) && |p| > 1
    ensures a < |sys.ir| && Leads(sys, a, p[1]) && Traces(sys, p[1..], p[1], c)
  {
    assert Leads(sys, p[0], p[0 + 1]);
    forall i | 0 <= i < |p[1..]| - 1 ensures Leads(sys, p[1..][i], p[1..][i + 1]) {
      assert Leads(sys, p[i + 1], p[i + 1 + 1]);
    }
  }

  /** What a term unfolds into is what it reaches and cannot be expanded. */
  lemma {:induction false} UnfoldReaches(sys: System, depth: nat, id: nat, x: nat)
    requires sys.Valid() && id < |sys.ir| && Unfold(sys, depth, id).Some? && x in Unfold(sys, depth, id).value
    ensures x < |sys.ir| && Conjunct(sys, x) && Reached(sys, id, x)
    decreases depth, 0
  {
    hide Leads, Conjunct, Reached;
    StepsExact(sys, id);
    if sys.Leaf(id) {
      ReachedSelf(sys, id);
    } else {
      var b := UnfoldAllReaches(sys, depth - 1, sys.Next(id), x);
      TraceOnward(sys, id, b, x);
    }
  }

  lemma {:induction false} ReachedSelf(sys: System, id: nat)
    requires id < |sys.ir|
    ensures Reached(sys, id, id)
  {
    assert Traces(sys, [id], id, id);
  }

  lemma {:induction false} UnfoldAllReaches(sys: System, depth: nat, ids: seq<nat>, x: nat) returns (b: nat)
    requires sys.Valid() && InRange(sys, ids) && UnfoldAll(sys, depth, ids).Some? && x in UnfoldAll(sys, depth, ids).value
    ensures b in ids && x < |sys.ir| && Conjunct(sys, x) && Reached(sys, b, x)
    decreases depth, 1, |ids|
  {
    hide Conjunct, Reached;
    if x in Unfold(sys, depth, ids[0]).value {
      UnfoldReaches(sys, depth, ids[0], x);
      b := ids[0];
    } else {
      b := UnfoldAllReaches(sys, depth, ids[1..], x);
    }
  }

  lemma {:induction false} ReachedUnfolds(sys: System, depth: nat, id: nat, p: seq<nat>, x: nat)
    requires sys.Valid() && id < |sys.ir| && Unfold(sys, depth, id).Some? && Traces(sys, p, id, x) && x < |sys.ir| && Conjunct(sys, x)
    ensures x in Unfold(sys, depth, id).value
    decreases |p|
  {
    hide Leads;
    StepsExact(sys, id);
    if |p| == 1 {
      assert x == id;
    } else {
      TraceTail(sys, p, id, x);
      UnfoldMember(sys, depth - 1, sys.Next(id), p[1]);
      ReachedUnfolds(sys, depth - 1, p[1], p[1..], x);
      UnfoldAllMember(sys, depth - 1, sys.Next(id), p[1], x);
    }
  }

  lemma {:induction false} UnfoldAllMember(sys: System, depth: nat, ids: seq<nat>, id: nat, x: nat)
    requires sys.Valid() && InRange(sys, ids) && id in ids && UnfoldAll(sys, depth, ids).Some?
    requires Unfold(sys, depth, id).Some? && x in Unfold(sys, depth, id).value
    ensures x in UnfoldAll(sys, depth, ids).value
    decreases |ids|
  {
    if id != ids[0] {
      assert ids == [ids[0]] + ids[1..];
      UnfoldAllMember(sys, depth, ids[1..], id, x);
    }
  }

  /** Nothing is returned exactly when a root runs into a cycle; otherwise exactly the terms that
      a root reaches and that cannot be expanded are listed. */
  lemma {:induction false} ExpansionExact(sys: System, roots: seq<nat>, result: Option<seq<nat>>)
    requires sys.Valid() && InRange(sys, roots) && Expansion(sys, roots, result)
    ensures result.None? <==> Circular(sys, roots)
    ensures result.Some? ==> forall x: nat ::
              x in result.value <==> x < |sys.ir| && Conjunct(sys, x) && exists r :: r in roots && Reached(sys, r, x)
  {
    hide Circular, Cyclic, Conjunct, Unfold, UnfoldAll, Path, Trace;
    CyclesExact(sys, roots);
    if result.Some? {
      var depth: nat :| UnfoldsTo(sys, depth, roots, result.value);
      var unfolded := UnfoldAll(sys, depth, roots).value;
      GatherExact([], unfolded);
      forall x: nat ensures x in unfolded <==> x < |sys.ir| && Conjunct(sys, x) && exists r :: r in roots && Reached(sys, r, x) {
        if x in unfolded {
          var r := UnfoldAllReaches(sys, depth, roots, x);
        }
        if x < |sys.ir| && Conjunct(sys, x) && exists r :: r in roots && Reached(sys, r, x) {
          var r :| r in roots && Reached(sys, r, x);
          var p: seq<nat> :| Traces(sys, p, r, x);
          UnfoldMember(sys, depth, roots, r);
          ReachedUnfolds(sys, depth, r, p, x);
          UnfoldAllMember(sys, depth, roots, r, x);
        }
      }
    }
  }
}
