/** Reconstructing a congruence refutation from asserted leaf equalities: every
    emitted clause is valid and justified by earlier ones, so a finished proof
    leaves the leaves and the disequality without a common model. */
module EufProver {
  import opened Basics
  import opened Terms
  import opened Congruence
  import opened EqualityGraph
  import opened ClosureHistory
  import opened CongruenceClosure
  import opened ClosureModel

  datatype Rule = Refl | EqCongruent | EqTransitive
  datatype Literal = Literal(equality: Equality, positive: bool)
  datatype Command =
    | Assume(atom: Equality)
    | AssumeNot(atom: Equality)
    | Derive(rule: Rule, clause: seq<Literal>)
    | Resolve(premises: seq<nat>)

  type Proof = seq<Command>

  /** Unordered pairs index the leaves and the memo. */
  function Key(a: nat, b: nat): Equality {
    if a < b then Equality(a, b) else Equality(b, a)
  }

  predicate Speaks(e: Equality, a: nat, b: nat) {
    e == Equality(a, b) || e == Equality(b, a)
  }

  lemma {:induction false} KeySpeaks(a: nat, b: nat, c: nat, d: nat)
    ensures Key(a, b) == Key(c, d) <==> Speaks(Equality(a, b), c, d)
  {
  }

  ghost predicate TrueIn(rel: Relation, l: Literal) {
    rel(l.equality.left, l.equality.right) == l.positive
  }

  /** Some literal holds in every congruence. */
  ghost predicate ValidClause(ir: Dag, clause: seq<Literal>) {
    forall rel: Relation | IsCongruence(ir, rel) :: exists k :: 0 <= k < |clause| && TrueIn(rel, clause[k])
  }

  /** Negative literals first, the conclusion last. */
  predicate HornShape(clause: seq<Literal>) {
    && |clause| > 0 && clause[|clause| - 1].positive
    && forall k | 0 <= k < |clause| - 1 :: !clause[k].positive
  }

  predicate Concludes(c: Command) {
    c.Assume? || (c.Derive? && |c.clause| > 0)
  }

  function Conclusion(c: Command): Equality
    requires Concludes(c)
  {
    if c.Assume? then c.atom else c.clause[|c.clause| - 1].equality
  }

  /** One of the first `n` premises is exactly this equality. */
  ghost predicate Produced(proof: Proof, premises: seq<nat>, n: nat, e: Equality) {
    exists j: nat :: j < n && j < |premises| && premises[j] < |proof| &&
      Concludes(proof[premises[j]]) && Conclusion(proof[premises[j]]) == e
  }

  /** A derived premise is a valid Horn clause over literally produced equalities. */
  ghost predicate Justified(ir: Dag, proof: Proof, premises: seq<nat>, n: nat)
    requires n < |premises|
  {
    && premises[n] < |proof|
    && var c := proof[premises[n]];
       c.Assume? ||
       (c.Derive? && HornShape(c.clause) && ValidClause(ir, c.clause)
        && forall k | 0 <= k < |c.clause| - 1 :: Produced(proof, premises, n, c.clause[k].equality))
  }

  ghost predicate AllJustified(ir: Dag, proof: Proof, premises: seq<nat>) {
    forall n: nat | n < |premises| :: Justified(ir, proof, premises, n)
  }

  ghost predicate AssumesHold(proof: Proof, rel: Relation) {
    forall k | 0 <= k < |proof| && proof[k].Assume? :: rel(proof[k].atom.left, proof[k].atom.right)
  }

  /** Replaying the premises in order, every conclusion holds where the assumptions do. */
  lemma {:induction false} PremisesHold(ir: Dag, proof: Proof, premises: seq<nat>, rel: Relation, n: nat)
    requires AllJustified(ir, proof, premises) && n < |premises|
    requires IsCongruence(ir, rel) && AssumesHold(proof, rel)
    ensures premises[n] < |proof| && Concludes(proof[premises[n]])
    ensures var e := Conclusion(proof[premises[n]]); rel(e.left, e.right)
    decreases n
  {
    assert Justified(ir, proof, premises, n);
    var c := proof[premises[n]];
    if c.Derive? {
      forall k | 0 <= k < |c.clause| - 1 ensures !TrueIn(rel, c.clause[k]) {
        assert Produced(proof, premises, n, c.clause[k].equality);
        var j: nat :| j < n && j < |premises| && premises[j] < |proof| &&
          Concludes(proof[premises[j]]) && Conclusion(proof[premises[j]]) == c.clause[k].equality;
        PremisesHold(ir, proof, premises, rel, j);
      }
      var k :| 0 <= k < |c.clause| && TrueIn(rel, c.clause[k]);
      assert k == |c.clause| - 1;
    }
  }

  /** Argument equalities of two applications of one symbol. */
  predicate ArgumentNegations(ir: Dag, u: nat, v: nat, clause: seq<Literal>, n: nat)
    requires SameSymbol(ir, u, v) && n <= |ir[u].children|
  {
    |clause| == n && forall k | 0 <= k < n ::
      !clause[k].positive && Speaks(clause[k].equality, ir[u].children[k], ir[v].children[k])
  }

  lemma {:induction false} CongruentClauseValid(ir: Dag, u: nat, v: nat, clause: seq<Literal>)
    requires SameSymbol(ir, u, v) && ArgumentNegations(ir, u, v, clause, |ir[u].children|)
    ensures ValidClause(ir, clause + [Literal(Equality(u, v), true)])
  {
    var full := clause + [Literal(Equality(u, v), true)];
    forall rel: Relation | IsCongruence(ir, rel) ensures exists k :: 0 <= k < |full| && TrueIn(rel, full[k]) {
      if rel(u, v) {
        assert TrueIn(rel, full[|clause|]);
      } else {
        assert !ArgumentsRelated(ir, rel, u, v);
        var k :| 0 <= k < |ir[u].children| && !rel(ir[u].children[k], ir[v].children[k]);
        assert full[k] == clause[k];
        assert TrueIn(rel, full[k]);
      }
    }
  }

  /** The links of a chain of terms. */
  predicate ChainNegations(path: Path, clause: seq<Literal>, n: nat)
    requires n < |path|
  {
    |clause| == n && forall k | 0 <= k < n ::
      !clause[k].positive && Speaks(clause[k].equality, path[k], path[k + 1])
  }

  lemma {:induction false} ChainRelates(rel: Relation, path: Path, clause: seq<Literal>, n: nat)
    requires IsEquivalence(rel) && 0 < |path| && n < |path| && ChainNegations(path, clause, |path| - 1)
    requires forall k | 0 <= k < |clause| :: !TrueIn(rel, clause[k])
    ensures rel(path[0], path[n])
  {
    if n > 0 {
      ChainRelates(rel, path, clause, n - 1);
      assert !TrueIn(rel, clause[n - 1]);
      assert rel(path[n - 1], path[n]);
    }
  }

  lemma {:induction false} TransitiveClauseValid(ir: Dag, path: Path, clause: seq<Literal>)
    requires 0 < |path| && ChainNegations(path, clause, |path| - 1)
    ensures ValidClause(ir, clause + [Literal(Equality(path[0], path[|path| - 1]), true)])
  {
    var full := clause + [Literal(Equality(path[0], path[|path| - 1]), true)];
    forall rel: Relation | IsCongruence(ir, rel) ensures exists k :: 0 <= k < |full| && TrueIn(rel, full[k]) {
      if forall k | 0 <= k < |clause| :: !TrueIn(rel, clause[k]) {
        ChainRelates(rel, path, clause, |path| - 1);
        assert TrueIn(rel, full[|clause|]);
      } else {
        var k :| 0 <= k < |clause| && TrueIn(rel, clause[k]);
        assert full[k] == clause[k];
      }
    }
  }

  lemma {:induction false} ReflexiveClauseValid(ir: Dag, u: nat)
    ensures ValidClause(ir, [] + [Literal(Equality(u, u), true)])
  {
    forall rel: Relation | IsCongruence(ir, rel)
      ensures exists k :: 0 <= k < 1 && TrueIn(rel, ([] + [Literal(Equality(u, u), true)])[k])
    {
      assert rel(u, u);
      assert TrueIn(rel, ([] + [Literal(Equality(u, u), true)])[0]);
    }
  }

  class Prover {
    const ir: Dag
    var proof: Proof
    var leaf: map<Equality, nat>
    var adj: Graph
    var memo: map<Equality, Equality>
    var premises: seq<nat>
    ghost var history: History
    ghost var known: set<Equality>

    constructor (ir: Dag)
      requires Ordered(ir)
      ensures this.ir == ir && Valid()
      ensures proof == [] && leaf == map[] && adj == map[] && memo == map[] && premises == []
    {
      this.ir := ir;
      proof, leaf, adj, memo, premises := [], map[], map[], map[], [];
    }

    /** Each leaf names an assumption that speaks of its pair. */
    ghost predicate LeavesAssumed()
      reads this
    {
      forall k | k in leaf :: leaf[k] < |proof| && proof[leaf[k]].Assume? &&
                              Key(proof[leaf[k]].atom.left, proof[leaf[k]].atom.right) == k
    }

    /** Each remembered literal speaks of its pair and is a premise's conclusion. */
    ghost predicate MemoProduced()
      reads this
    {
      forall k | k in memo :: Key(memo[k].left, memo[k].right) == k && Produced(proof, premises, |premises|, memo[k])
    }

    ghost predicate GraphInRange()
      reads this
    {
      forall x: nat, y: nat | Edge(adj, x, y) :: y < |ir|
    }

    ghost predicate Valid()
      reads this
    {
      && Ordered(ir) && LeavesAssumed() && MemoProduced() && GraphInRange()
      && AllJustified(ir, proof, premises) && DerivedUsed()
    }

    /** The graph has been augmented, and its history is known. */
    ghost predicate Staged()
      reads this`history, this`known, this`adj, this`leaf
    {
      && Tells(ir, history, known, adj) && history.roots != []
      && (forall e | e in known :: Key(e.left, e.right) in leaf)
      && (forall x: nat, y: nat | Edge(adj, x, y) :: Same(Last(history), x, y))
      && forall x: nat, y: nat | Same(Last(history), x, y) :: Connected(adj, x, y)
    }

    /** A pair that the search is bound to prove: trivial, a leaf, or merged early enough for the depth cap. */
    ghost predicate Due(u: nat, v: nat, depth: nat)
      reads this`history, this`leaf
    {
      depth <= |ir| && (u == v || Key(u, v) in leaf || InTime(history, u, v, depth, |ir|))
    }

    /** The pair is due, and only by a chain. */
    ghost predicate ChainDue(u: nat, v: nat, depth: nat)
      reads this`history, this`leaf
    {
      ClassInTime(history, u, v, depth, |ir|) && u != v && Key(u, v) !in leaf && !EdgeInTime(history, u, v, depth, |ir|)
    }

    /** Every emitted clause is a premise of the final resolution. */
    ghost predicate DerivedUsed()
      reads this
    {
      forall k | 0 <= k < |proof| && proof[k].Derive? :: k in premises
    }

    /** What a call may change: proof, memo and premises only grow. */
    twostate predicate Grows()
      reads this
    {
      && leaf == old(leaf) && adj == old(adj)
      && old(proof) <= proof && old(premises) <= premises
      && forall k | |old(proof)| <= k < |proof| :: proof[k].Derive?
    }

    lemma {:induction false} ExtendProof(was: Proof, now: Proof, before: seq<nat>, after: seq<nat>)
      requires was <= now && before <= after && AllJustified(ir, was, before)
      ensures forall n: nat, e: Equality | Produced(was, before, n, e) :: Produced(now, after, n, e)
      ensures forall n: nat | n < |before| :: Justified(ir, now, after, n)
    {
      forall n: nat, e: Equality | Produced(was, before, n, e) ensures Produced(now, after, n, e) {
        var j: nat :| j < n && j < |before| && before[j] < |was| &&
          Concludes(was[before[j]]) && Conclusion(was[before[j]]) == e;
        assert after[j] == before[j] && now[after[j]] == was[before[j]];
      }
      forall n: nat | n < |before| ensures Justified(ir, now, after, n) {
        assert Justified(ir, was, before, n);
      }
    }

    /** Record a premise id once. */
    method Use(id: nat)
      requires Valid() && id < |proof| && proof[id].Assume?
      modifies this`premises
      ensures Valid() && old(premises) <= premises
      ensures premises == if id in old(premises) then old(premises) else old(premises) + [id]
      ensures Produced(proof, premises, |premises|, proof[id].atom)
    {
      if id !in premises {
        ghost var before := premises;
        premises := premises + [id];
        ExtendProof(proof, proof, before, premises);
        assert premises[|before|] == id;
        assert Justified(ir, proof, premises, |before|);
      } else {
        var j :| 0 <= j < |premises| && premises[j] == id;
      }
    }

    /** Append a derived clause, use it and remember its conclusion. */
    method Emit(u: nat, v: nat, rule: Rule, negations: seq<Literal>)
      requires Valid() && (forall k | 0 <= k < |negations| :: !negations[k].positive)
      requires forall k | 0 <= k < |negations| :: Produced(proof, premises, |premises|, negations[k].equality)
      requires ValidClause(ir, negations + [Literal(Equality(u, v), true)])
      modifies this`proof, this`premises, this`memo
      ensures Valid() && Grows()
      ensures proof == old(proof) + [Derive(rule, negations + [Literal(Equality(u, v), true)])]
      ensures memo == old(memo)[Key(u, v) := Equality(u, v)]
      ensures Produced(proof, premises, |premises|, Equality(u, v))
    {
      ghost var was, before := proof, premises;
      var clause := negations + [Literal(Equality(u, v), true)];
      var id := |proof|;
      proof, premises := proof + [Derive(rule, clause)], premises + [id];
      ExtendProof(was, proof, before, premises);
      assert premises[|before|] == id;
      forall k | 0 <= k < |clause| - 1 ensures Produced(proof, premises, |before|, clause[k].equality) {
        assert clause[k] == negations[k];
        assert Produced(was, before, |before|, negations[k].equality);
      }
      assert Justified(ir, proof, premises, |before|);
      assert Conclusion(proof[premises[|before|]]) == Equality(u, v);
      Widen(|before|);
      memo := memo[Key(u, v) := Equality(u, v)];
    }

    /** What was produced stays produced as premises are added. */
    lemma {:induction false} Widen(n: nat)
      requires n <= |premises|
      ensures forall e: Equality | Produced(proof, premises, n, e) :: Produced(proof, premises, |premises|, e)
    {
    }

    /** Prove (= u v), up to orientation, from the leaves; None outside the fragment or past the depth cap. */
    method Prove(u: nat, v: nat, depth: nat) returns (r: Option<Equality>)
      requires Valid() && u < |ir| && v < |ir|
      modifies this`proof, this`premises, this`memo
      ensures Valid() && Grows()
      ensures r.Some? ==> Speaks(r.value, u, v) && Produced(proof, premises, |premises|, r.value)
      ensures r.Some? && Key(u, v) !in old(memo) ==>
                r.value == if u != v && Key(u, v) in leaf then proof[leaf[Key(u, v)]].atom else Equality(u, v)
      ensures depth <= |ir| && (u == v || Key(u, v) in leaf) ==> r.Some?
      ensures Staged() && Due(u, v, depth) ==> r.Some?
      ensures Key(u, v) in leaf && u != v && Key(u, v) !in old(memo) && r.Some? ==>
                premises == if leaf[Key(u, v)] in old(premises) then old(premises) else old(premises) + [leaf[Key(u, v)]]
      decreases |ir| + 1 - depth, 2
    {
      if depth > |ir| {
        return None;
      }
      var k := Key(u, v);
      if k in memo {
        KeySpeaks(memo[k].left, memo[k].right, u, v);
        return Some(memo[k]);
      }
      if u == v {
        ReflexiveClauseValid(ir, u);
        Emit(u, v, Refl, []);
        return Some(Equality(u, u));
      }
      if k in leaf {
        var atom := proof[leaf[k]].atom;
        KeySpeaks(atom.left, atom.right, u, v);
        Use(leaf[k]);
        Widened(old(proof), old(premises));
        memo := memo[k := atom];
        return Some(atom);
      }
      r := ProveByCongruence(u, v, depth);
      if r.None? {
        r := ProveByTransitivity(u, v, depth);
      }
    }

    /** (b) two applications of one symbol, argument by argument. */
    method ProveByCongruence(u: nat, v: nat, depth: nat) returns (r: Option<Equality>)
      requires Valid() && u < |ir| && v < |ir| && depth <= |ir|
      modifies this`proof, this`premises, this`memo
      ensures Valid() && Grows()
      ensures r.Some? ==> r.value == Equality(u, v) && Produced(proof, premises, |premises|, r.value)
      ensures SameSymbol(ir, u, v) && (forall k: nat | k < |ir[u].children| :: ir[u].children[k] == ir[v].children[k] || Key(ir[u].children[k], ir[v].children[k]) in leaf) && depth < |ir| ==> r.Some?
      ensures Staged() && EdgeInTime(history, u, v, depth, |ir|) ==> r.Some?
      decreases |ir| + 1 - depth, 1
    {
      MergedArguments(u, v, depth);
      if !SameSymbol(ir, u, v) {
        return None;
      }
      var negations := ProveArguments(u, v, depth);
      if negations.None? {
        return None;
      }
      CongruentClauseValid(ir, u, v, negations.value);
      Emit(u, v, EqCongruent, negations.value);
      return Some(Equality(u, v));
    }

    lemma {:induction false} MergedArguments(u: nat, v: nat, depth: nat)
      ensures Staged() && EdgeInTime(history, u, v, depth, |ir|) ==>
                SameSymbol(ir, u, v) && forall k: nat | k < |ir[u].children| :: Due(ir[u].children[k], ir[v].children[k], depth + 1)
    {
      if Staged() && EdgeInTime(history, u, v, depth, |ir|) {
        ArgumentsInTime(ir, history, u, v, depth, |ir|);
      }
    }

    /** (c) a chain of at least two edges in the equality graph. */
    method ProveByTransitivity(u: nat, v: nat, depth: nat) returns (r: Option<Equality>)
      requires Valid() && u < |ir| && v < |ir| && depth <= |ir|
      modifies this`proof, this`premises, this`memo
      ensures Valid() && Grows()
      ensures r.Some? ==> r.value == Equality(u, v) && Produced(proof, premises, |premises|, r.value)
      ensures Staged() && ChainDue(u, v, depth) ==> r.Some?
      decreases |ir| + 1 - depth, 1
    {
      var path := Bfs(adj, u, v);
      PathDue(u, v, path, depth);
      if |path| < 3 {
        return None;
      }
      PathInRange(path, u, v);
      assert path[0] == u && path[|path| - 1] == v;
      var negations := ProveChain(path, depth);
      if negations.None? {
        return None;
      }
      TransitiveClauseValid(ir, path, negations.value);
      Emit(u, v, EqTransitive, negations.value);
      return Some(Equality(u, v));
    }

    /** A pair merged in time has a path, every step of which is due; only a leaf or a congruence edge is shorter. */
    lemma {:induction false} PathDue(u: nat, v: nat, path: Path, depth: nat)
      requires path == [] <==> !Connected(adj, u, v)
      requires path != [] ==> IsPath(adj, path, u, v)
      requires forall p: Path | IsPath(adj, p, u, v) :: |path| <= |p|
      ensures Staged() && ClassInTime(history, u, v, depth, |ir|) && u != v ==>
                && |path| >= 2 && (forall k: nat | k + 1 < |path| :: Due(path[k], path[k + 1], depth + 1))
                && (|path| == 2 ==> Key(u, v) in leaf || EdgeInTime(history, u, v, depth, |ir|))
    {
      if Staged() && ClassInTime(history, u, v, depth, |ir|) && u != v {
        hide Connected, EdgeInTime, IsPath;
        HistoryShape(ir, history, known, adj);
        LateSame(u, v, depth);
        PathEnds(adj, path, u, v);
        ShortestSimple(adj, path, u, v);
        StepsInTime(ir, history, known, adj, path, u, v, depth, |ir|);
        forall k: nat | k + 1 < |path| ensures Due(path[k], path[k + 1], depth + 1) {
          StepDue(path[k], path[k + 1], depth);
        }
        if |path| == 2 {
          StepDue(path[0], path[0 + 1], depth);
        }
      }
    }

    lemma {:induction false} LateSame(u: nat, v: nat, depth: nat)
      requires Staged() && ClassInTime(history, u, v, depth, |ir|)
      ensures Same(Last(history), u, v) && depth < |ir|
    {
      var i: nat :| i < |history.roots| && Same(history.roots[i], u, v) && depth + 2 * i + 1 <= |ir|;
      Coarser(ir, history, i, |history.edges|, u, v);
    }

    lemma {:induction false} StepDue(x: nat, y: nat, depth: nat)
      requires Staged() && depth < |ir|
      requires IsLeaf(known, x, y) ||
               (EdgeInTime(history, x, y, depth + 1, |ir|) && EdgeInTime(history, x, y, depth, |ir|))
      ensures Due(x, y, depth + 1) && (Key(x, y) in leaf || EdgeInTime(history, x, y, depth, |ir|))
    {
      if e :| e in known && Joins(e, x, y) {
        KeySpeaks(e.left, e.right, x, y);
      }
    }

    lemma {:induction false} PathInRange(path: Path, u: nat, v: nat)
      requires GraphInRange() && u < |ir| && IsPath(adj, path, u, v)
      ensures forall k | 0 <= k < |path| :: path[k] < |ir|
    {
      forall k | 0 <= k < |path| ensures path[k] < |ir| {
        if k > 0 {
          var j: nat := k - 1;
          assert Edge(adj, path[j], path[j + 1]);
        }
      }
    }

    lemma {:induction false} Widened(was: Proof, before: seq<nat>)
      requires was <= proof && before <= premises && AllJustified(ir, was, before)
      ensures forall e: Equality | Produced(was, before, |before|, e) :: Produced(proof, premises, |premises|, e)
    {
      ExtendProof(was, proof, before, premises);
      Widen(|before|);
    }

    method ProveArguments(u: nat, v: nat, depth: nat) returns (r: Option<seq<Literal>>)
      requires Valid() && SameSymbol(ir, u, v) && depth <= |ir|
      modifies this`proof, this`premises, this`memo
      ensures Valid() && Grows()
      ensures r.Some? ==> ArgumentNegations(ir, u, v, r.value, |ir[u].children|)
      ensures Staged() && (forall k: nat | k < |ir[u].children| :: Due(ir[u].children[k], ir[v].children[k], depth + 1)) ==> r.Some?
      ensures depth < |ir| && (forall k: nat | k < |ir[u].children| :: ir[u].children[k] == ir[v].children[k] || Key(ir[u].children[k], ir[v].children[k]) in leaf) ==> r.Some?
      ensures r.Some? ==> forall k | 0 <= k < |r.value| :: Produced(proof, premises, |premises|, r.value[k].equality)
      decreases |ir| + 1 - depth, 0
    {
      var clause: seq<Literal> := [];
      for i := 0 to |ir[u].children|
        invariant Valid() && Grows()
        invariant ArgumentNegations(ir, u, v, clause, i)
        invariant forall k | 0 <= k < |clause| :: Produced(proof, premises, |premises|, clause[k].equality)
      {
        ghost var was, before := proof, premises;
        var e := Prove(ir[u].children[i], ir[v].children[i], depth + 1);
        Widened(was, before);
        if e.None? {
          return None;
        }
        clause := clause + [Literal(e.value, false)];
      }
      return Some(clause);
    }

    method ProveChain(path: Path, depth: nat) returns (r: Option<seq<Literal>>)
      requires Valid() && |path| > 0 && depth <= |ir|
      requires forall k | 0 <= k < |path| :: path[k] < |ir|
      modifies this`proof, this`premises, this`memo
      ensures Valid() && Grows()
      ensures r.Some? ==> ChainNegations(path, r.value, |path| - 1)
      ensures Staged() && (forall k: nat | k + 1 < |path| :: Due(path[k], path[k + 1], depth + 1)) ==> r.Some?
      ensures r.Some? ==> forall k | 0 <= k < |r.value| :: Produced(proof, premises, |premises|, r.value[k].equality)
      decreases |ir| + 1 - depth, 0
    {
      var clause: seq<Literal> := [];
      for i := 0 to |path| - 1
        invariant Valid() && Grows()
        invariant ChainNegations(path, clause, i)
        invariant forall k | 0 <= k < |clause| :: Produced(proof, premises, |premises|, clause[k].equality)
      {
        ghost var was, before := proof, premises;
        var e := Prove(path[i], path[i + 1], depth + 1);
        Widened(was, before);
        if e.None? {
          return None;
        }
        clause := clause + [Literal(e.value, false)];
      }
      return Some(clause);
    }
  }

  /** The leaf recorded for a pair is the last one asserted for it. */
  ghost function LastLeaf(leaves: seq<Equality>, k: Equality): Option<Equality> {
    if leaves == [] then None else
    var e := leaves[|leaves| - 1];
    if Key(e.left, e.right) == k then Some(e) else LastLeaf(leaves[..|leaves| - 1], k)
  }

  function Elements(leaves: seq<Equality>): set<Equality> {
    set e | e in leaves
  }

  /** The leaves entail the equality in every congruence. */
  ghost predicate Entails(ir: Dag, leaves: seq<Equality>, e: Equality) {
    forall rel: Relation | IsCongruence(ir, rel) && Includes(rel, Elements(leaves)) :: rel(e.left, e.right)
  }

  /** A finished refutation: assumptions, justified clauses, one final resolution. */
  ghost predicate Refutation(ir: Dag, leaves: seq<Equality>, goal: Equality, proof: Proof, premises: seq<nat>) {
    && |proof| > |leaves| + 1
    && (forall k | 0 <= k < |leaves| :: proof[k] == Assume(leaves[k]))
    && proof[|leaves|] == AssumeNot(goal)
    && (forall k | |leaves| < k < |proof| - 1 :: proof[k].Derive? && ValidClause(ir, proof[k].clause) && k in premises)
    && proof[|proof| - 1] == Resolve(premises + [|leaves|])
    && AllJustified(ir, proof, premises)
  }

  /** The goal itself, in its own orientation, is the conclusion of some premise. */
  ghost predicate GoalProduced(goal: Equality, proof: Proof, premises: seq<nat>) {
    Produced(proof, premises, |premises|, goal)
  }

  /** A truth value for every oriented equality, read as a propositional atom. */
  type Valuation = Equality -> bool

  ghost predicate SatisfiesCommand(v: Valuation, c: Command) {
    match c
    case Assume(e) => v(e)
    case AssumeNot(e) => !v(e)
    case Derive(_, clause) => exists k :: 0 <= k < |clause| && v(clause[k].equality) == clause[k].positive
    case Resolve(_) => true
  }

  ghost predicate SatisfiesCited(v: Valuation, proof: Proof, cited: seq<nat>) {
    forall j | 0 <= j < |cited| :: cited[j] < |proof| && SatisfiesCommand(v, proof[cited[j]])
  }

  /** The last step resolves clauses that are propositionally unsatisfiable, literal by literal. */
  ghost predicate Closed(proof: Proof) {
    && proof != [] && proof[|proof| - 1].Resolve?
    && Unsatisfiable(proof, proof[|proof| - 1].premises)
  }

  ghost predicate Unsatisfiable(proof: Proof, cited: seq<nat>) {
    forall v: Valuation :: !SatisfiesCited(v, proof, cited)
  }

  /** Under a valuation of the premises, every premise's conclusion is true. */
  lemma {:induction false} ConclusionsTrue(ir: Dag, proof: Proof, premises: seq<nat>, v: Valuation, n: nat)
    requires AllJustified(ir, proof, premises) && n < |premises| && SatisfiesCited(v, proof, premises)
    ensures Concludes(proof[premises[n]]) && v(Conclusion(proof[premises[n]]))
    decreases n
  {
    assert Justified(ir, proof, premises, n) && SatisfiesCommand(v, proof[premises[n]]);
    var c := proof[premises[n]];
    if c.Derive? {
      forall k | 0 <= k < |c.clause| - 1 ensures v(c.clause[k].equality) {
        assert Produced(proof, premises, n, c.clause[k].equality);
        var j: nat :| j < n && j < |premises| && premises[j] < |proof| &&
          Concludes(proof[premises[j]]) && Conclusion(proof[premises[j]]) == c.clause[k].equality;
        ConclusionsTrue(ir, proof, premises, v, j);
      }
      var k :| 0 <= k < |c.clause| && v(c.clause[k].equality) == c.clause[k].positive;
      assert k == |c.clause| - 1;
    }
  }

  /** The valuation that makes exactly the produced equalities true. */
  ghost function ProducedOnly(proof: Proof, premises: seq<nat>): Valuation {
    e => Produced(proof, premises, |premises|, e)
  }

  lemma {:induction false} ProducedOnlySatisfies(ir: Dag, proof: Proof, premises: seq<nat>)
    requires AllJustified(ir, proof, premises)
    ensures SatisfiesCited(ProducedOnly(proof, premises), proof, premises)
  {
    var v := ProducedOnly(proof, premises);
    forall n: nat | n < |premises| ensures premises[n] < |proof| && SatisfiesCommand(v, proof[premises[n]]) {
      assert Justified(ir, proof, premises, n);
      var c := proof[premises[n]];
      assert v(Conclusion(c));
      if c.Derive? {
        assert v(c.clause[|c.clause| - 1].equality) == c.clause[|c.clause| - 1].positive;
      }
    }
  }

  /** The final resolution closes exactly when the goal itself was produced. */
  lemma {:induction false} ClosedIffProduced(ir: Dag, leaves: seq<Equality>, goal: Equality, proof: Proof, premises: seq<nat>)
    requires Refutation(ir, leaves, goal, proof, premises)
    ensures Closed(proof) <==> GoalProduced(goal, proof, premises)
  {
    hide AllJustified;
    var cited := premises + [|leaves|];
    if GoalProduced(goal, proof, premises) {
      forall v: Valuation ensures !SatisfiesCited(v, proof, cited) {
        if SatisfiesCited(v, proof, cited) {
          GoalClashes(ir, leaves, goal, proof, premises, v);
        }
      }
    } else {
      var v := ProducedOnly(proof, premises);
      ProducedOnlySatisfies(ir, proof, premises);
      forall j | 0 <= j < |cited| ensures cited[j] < |proof| && SatisfiesCommand(v, proof[cited[j]]) {
        if j < |premises| {
          assert cited[j] == premises[j];
        }
      }
      assert SatisfiesCited(v, proof, cited);
    }
  }

  lemma {:induction false} GoalClashes(ir: Dag, leaves: seq<Equality>, goal: Equality, proof: Proof, premises: seq<nat>, v: Valuation)
    requires Refutation(ir, leaves, goal, proof, premises) && GoalProduced(goal, proof, premises)
    ensures !SatisfiesCited(v, proof, premises + [|leaves|])
  {
    var cited := premises + [|leaves|];
    if SatisfiesCited(v, proof, cited) {
      forall j | 0 <= j < |premises| ensures premises[j] < |proof| && SatisfiesCommand(v, proof[premises[j]]) {
        assert cited[j] == premises[j];
      }
      var n: nat :| n < |premises| && premises[n] < |proof| && Concludes(proof[premises[n]]) && Conclusion(proof[premises[n]]) == goal;
      assert cited[|premises|] == |leaves|;
      ConclusionsTrue(ir, proof, premises, v, n);
    }
  }

  /** The prover after all leaves were assumed. */
  ghost predicate LeavesLoaded(prover: Prover, leaves: seq<Equality>)
    reads prover
  {
    && prover.Valid() && prover.memo == map[] && prover.premises == []
    && |prover.proof| == |leaves| && (forall k | 0 <= k < |leaves| :: prover.proof[k] == Assume(leaves[k]))
    && LeafGraph(prover.adj, Elements(leaves))
    && forall k :: if k in prover.leaf
                   then prover.leaf[k] < |leaves| && LastLeaf(leaves, k) == Some(leaves[prover.leaf[k]])
                   else LastLeaf(leaves, k).None?
  }

  method AssumeLeaf(prover: Prover, ghost leaves: seq<Equality>, e: Equality)
    requires LeavesLoaded(prover, leaves) && e.left < |prover.ir| && e.right < |prover.ir|
    modifies prover
    ensures LeavesLoaded(prover, leaves + [e])
  {
    hide LeafGraph, Link, Elements, Edge, LastLeaf;
    forall k ensures LastLeaf(leaves + [e], k) == if Key(e.left, e.right) == k then Some(e) else LastLeaf(leaves, k) {
      LastLeafNext(leaves, e, k);
    }
    LeafGraphGrows(prover.adj, leaves, e);
    LinkStaysInRange(prover.adj, e, |prover.ir|);
    prover.leaf := prover.leaf[Key(e.left, e.right) := |prover.proof|];
    prover.proof := prover.proof + [Assume(e)];
    prover.adj := Link(prover.adj, e.left, e.right);
  }

  lemma {:induction false} LastLeafNext(leaves: seq<Equality>, e: Equality, k: Equality)
    ensures LastLeaf(leaves + [e], k) == if Key(e.left, e.right) == k then Some(e) else LastLeaf(leaves, k)
  {
    assert (leaves + [e])[..|leaves|] == leaves;
  }

  lemma {:induction false} LeafGraphGrows(g: Graph, leaves: seq<Equality>, e: Equality)
    requires LeafGraph(g, Elements(leaves))
    ensures LeafGraph(Link(g, e.left, e.right), Elements(leaves + [e]))
  {
    LinkEdges(g, e.left, e.right);
    assert Elements(leaves + [e]) == Elements(leaves) + {e};
  }

  lemma {:induction false} LinkStaysInRange(g: Graph, e: Equality, n: nat)
    requires e.left < n && e.right < n && forall x: nat, y: nat | Edge(g, x, y) :: y < n
    ensures forall x: nat, y: nat | Edge(Link(g, e.left, e.right), x, y) :: y < n
  {
    LinkEdges(g, e.left, e.right);
  }

  method AssumeLeaves(prover: Prover, leaves: seq<Equality>)
    requires LeavesLoaded(prover, []) && InRange(prover.ir, Elements(leaves))
    modifies prover
    ensures LeavesLoaded(prover, leaves)
  {
    assert leaves[..0] == [];
    for i := 0 to |leaves|
      invariant LeavesLoaded(prover, leaves[..i])
    {
      assert leaves[i] in Elements(leaves);
      assert leaves[..i + 1] == leaves[..i] + [leaves[i]];
      AssumeLeaf(prover, leaves[..i], leaves[i]);
    }
    assert leaves[..|leaves|] == leaves;
  }

  /** The terms at hand are at most half of all: then the depth cap never cuts a proof short. */
  ghost predicate Roomy(ir: Dag, leaves: seq<Equality>, goal: Equality) {
    exists terms :: Holds(ir, terms, Elements(leaves), goal.left, goal.right) && 2 * |terms| <= |ir| + 1
  }

  /** The prover ready to search: leaves and disequality assumed, congruence edges added. */
  ghost predicate Ready(prover: Prover, leaves: seq<Equality>, goal: Equality)
    reads prover
  {
    && prover.Valid() && prover.memo == map[] && prover.premises == []
    && |prover.proof| == |leaves| + 1 && (forall k | 0 <= k < |leaves| :: prover.proof[k] == Assume(leaves[k]))
    && prover.proof[|leaves|] == AssumeNot(goal)
    && prover.Staged() && (Entails(prover.ir, leaves, goal) && Roomy(prover.ir, leaves, goal) ==> prover.Due(goal.left, goal.right, 0))
    && forall k :: if k in prover.leaf
                   then prover.leaf[k] < |leaves| && LastLeaf(leaves, k) == Some(leaves[prover.leaf[k]])
                   else LastLeaf(leaves, k).None?
  }

  method AssumeGoal(prover: Prover, leaves: seq<Equality>, goal: Equality)
    requires LeavesLoaded(prover, leaves) && InRange(prover.ir, Elements(leaves))
    requires goal.left < |prover.ir| && goal.right < |prover.ir|
    modifies prover
    ensures Ready(prover, leaves, goal)
  {
    hide LeafGraph, Tells, ChildrenClosed, PairClosed, Entailed, LastLeaf, Holds, Entails, Roomy, ClassInTime, EdgeInTime, IsCongruence;
    var adj;
    ghost var root, history;
    var known := Elements(leaves);
    LeavesKeyed(prover, leaves);
    adj, root, history := AugmentCongruenceEdges(prover.ir, known, prover.adj, goal.left, goal.right);
    prover.proof := prover.proof + [AssumeNot(goal)];
    prover.adj, prover.history, prover.known := adj, history, known;
    DueAtStart(prover.ir, leaves, goal, root, history, adj);
  }

  lemma {:induction false} DueAtStart(ir: Dag, leaves: seq<Equality>, goal: Equality, root: Roots, h: History, g: Graph)
    requires Ordered(ir) && UpToDate(ir, h, Elements(leaves), g, root) && h.roots != [] && |h.edges| < |root.Keys|
    requires forall terms | Holds(ir, terms, Elements(leaves), goal.left, goal.right) :: root.Keys <= terms
    requires ClosedClasses(ir, root) && goal.left in root && goal.right in root
    requires forall e | e in Elements(leaves) :: Same(root, e.left, e.right)
    ensures Entails(ir, leaves, goal) && Roomy(ir, leaves, goal) ==> ClassInTime(h, goal.left, goal.right, 0, |ir|)
  {
    hide UpToDate, Holds, ClosedClasses, Elements;
    if Entails(ir, leaves, goal) && Roomy(ir, leaves, goal) {
      EntailedIsMerged(ir, Elements(leaves), root, goal.left, goal.right);
      EarlyEnough(ir, leaves, goal, root, h, g);
    }
  }

  lemma {:induction false} LeavesKeyed(prover: Prover, leaves: seq<Equality>)
    requires LeavesLoaded(prover, leaves)
    ensures forall e | e in Elements(leaves) :: Key(e.left, e.right) in prover.leaf
  {
    forall e | e in Elements(leaves) ensures LastLeaf(leaves, Key(e.left, e.right)).Some? {
      LeafListed(leaves, e);
    }
  }

  lemma {:induction false} LeafListed(leaves: seq<Equality>, e: Equality)
    requires e in leaves
    ensures LastLeaf(leaves, Key(e.left, e.right)).Some?
  {
    var n := |leaves| - 1;
    if leaves[n] != e {
      assert leaves == leaves[..n] + [leaves[n]];
      LeafListed(leaves[..n], e);
    }
  }

  lemma {:induction false} EarlyEnough(ir: Dag, leaves: seq<Equality>, goal: Equality, root: Roots, h: History, g: Graph)
    requires UpToDate(ir, h, Elements(leaves), g, root) && h.roots != [] && |h.edges| < |root.Keys| && Roomy(ir, leaves, goal)
    requires forall terms | Holds(ir, terms, Elements(leaves), goal.left, goal.right) :: root.Keys <= terms
    requires Same(root, goal.left, goal.right)
    ensures ClassInTime(h, goal.left, goal.right, 0, |ir|)
  {
    hide Holds;
    var terms :| Holds(ir, terms, Elements(leaves), goal.left, goal.right) && 2 * |terms| <= |ir| + 1;
    Counted(root.Keys, terms);
    HistoryShape(ir, h, Elements(leaves), g);
    assert Same(h.roots[|h.edges|], goal.left, goal.right);
  }

  /** What a successful proof amounts to once the final resolution is appended. */
  lemma {:induction false} Conclude(prover: Prover, leaves: seq<Equality>, goal: Equality, proved: Equality)
    requires prover.Valid() && |prover.proof| > |leaves| + 0
    requires forall k | 0 <= k < |leaves| :: prover.proof[k] == Assume(leaves[k])
    requires prover.proof[|leaves|] == AssumeNot(goal)
    requires forall k | |leaves| < k < |prover.proof| :: prover.proof[k].Derive?
    requires Produced(prover.proof, prover.premises, |prover.premises|, proved)
    requires Speaks(proved, goal.left, goal.right)
    ensures Entails(prover.ir, leaves, goal)
    ensures Refutation(prover.ir, leaves, goal, prover.proof + [Resolve(prover.premises + [|leaves|])], prover.premises)
  {
    var proof, premises := prover.proof, prover.premises;
    var done := proof + [Resolve(premises + [|leaves|])];
    prover.ExtendProof(proof, done, premises, premises);
    forall k | |leaves| < k < |done| - 1 ensures ValidClause(prover.ir, done[k].clause) {
      assert done[k] == proof[k];
      var n :| 0 <= n < |premises| && premises[n] == k;
      assert Justified(prover.ir, proof, premises, n);
    }
    forall rel: Relation | IsCongruence(prover.ir, rel) && Includes(rel, Elements(leaves))
      ensures rel(goal.left, goal.right)
    {
      assert AssumesHold(proof, rel) by {
        forall k | 0 <= k < |proof| && proof[k].Assume? ensures rel(proof[k].atom.left, proof[k].atom.right) {
          assert proof[k].atom in Elements(leaves);
        }
      }
      var j: nat :| j < |premises| && premises[j] < |proof| &&
        Concludes(proof[premises[j]]) && Conclusion(proof[premises[j]]) == proved;
      PremisesHold(prover.ir, proof, premises, rel, j);
    }
  }

  /** Extending the proof neither adds nor removes produced literals. */
  lemma {:induction false} ProducedAtEnd(proof: Proof, premises: seq<nat>, last: Command, e: Equality)
    requires forall j | 0 <= j < |premises| :: premises[j] < |proof|
    ensures Produced(proof + [last], premises, |premises|, e) <==> Produced(proof, premises, |premises|, e)
  {
    if Produced(proof, premises, |premises|, e) {
      var j: nat :| j < |premises| && premises[j] < |proof| && Concludes(proof[premises[j]]) && Conclusion(proof[premises[j]]) == e;
      assert (proof + [last])[premises[j]] == proof[premises[j]];
    }
    if Produced(proof + [last], premises, |premises|, e) {
      var j: nat :| j < |premises| && premises[j] < |proof| + 1 && Concludes((proof + [last])[premises[j]])
        && Conclusion((proof + [last])[premises[j]]) == e;
      assert (proof + [last])[premises[j]] == proof[premises[j]];
    }
  }

  /** Build a refutation from the leaves and the disequality (not (= lhs rhs)).  Taken alone, its
      final resolution closes unless the pair itself is a leaf asserted the other way round;
      the caller passes no such leaf. */
  method ProofEufCongruence(ir: Dag, leaves: seq<Equality>, lhs: nat, rhs: nat)
    returns (ok: bool, proof: Proof, ghost premises: seq<nat>)
    requires Ordered(ir) && lhs < |ir| && rhs < |ir| && InRange(ir, Elements(leaves))
    ensures lhs == rhs || LastLeaf(leaves, Key(lhs, rhs)).Some? ==> ok
    ensures Entails(ir, leaves, Equality(lhs, rhs)) && Roomy(ir, leaves, Equality(lhs, rhs)) ==> ok
    ensures ok ==> Entails(ir, leaves, Equality(lhs, rhs))
    ensures ok ==> Refutation(ir, leaves, Equality(lhs, rhs), proof, premises)
    ensures ok ==> (Closed(proof) <==>
              lhs == rhs || LastLeaf(leaves, Key(lhs, rhs)).None? || LastLeaf(leaves, Key(lhs, rhs)) == Some(Equality(lhs, rhs)))
  {
    var prover := new Prover(ir);
    AssumeLeaves(prover, leaves);
    var goal := Equality(lhs, rhs);
    AssumeGoal(prover, leaves, goal);
    ok, proof, premises := Search(prover, leaves, goal);
  }

  method Search(prover: Prover, leaves: seq<Equality>, goal: Equality)
    returns (ok: bool, proof: Proof, ghost premises: seq<nat>)
    requires Ready(prover, leaves, goal) && goal.left < |prover.ir| && goal.right < |prover.ir|
    modifies prover
    ensures goal.left == goal.right || LastLeaf(leaves, Key(goal.left, goal.right)).Some? ==> ok
    ensures Entails(prover.ir, leaves, goal) && Roomy(prover.ir, leaves, goal) ==> ok
    ensures ok ==> Entails(prover.ir, leaves, goal) && Refutation(prover.ir, leaves, goal, proof, premises)
    ensures ok ==> (Closed(proof) <==>
              goal.left == goal.right || LastLeaf(leaves, Key(goal.left, goal.right)).None?
              || LastLeaf(leaves, Key(goal.left, goal.right)) == Some(goal))
  {
    ghost var k := Key(goal.left, goal.right);
    var proved := prover.Prove(goal.left, goal.right, 0);
    premises := prover.premises;
    if proved.None? {
      return false, prover.proof, premises;
    }
    Conclude(prover, leaves, goal, proved.value);
    forall j | 0 <= j < |premises| ensures premises[j] < |prover.proof| {
      assert Justified(prover.ir, prover.proof, premises, j);
    }
    ProducedAtEnd(prover.proof, premises, Resolve(premises + [|leaves|]), goal);
    proof := prover.proof + [Resolve(prover.premises + [|leaves|])];
    ClosedIffProduced(prover.ir, leaves, goal, proof, premises);
    return true, proof, premises;
  }

  /** No interpretation of the symbols satisfies the leaves and the disequality. */
  lemma {:induction false} NoCommonModel<D>(ir: Dag, leaves: seq<Equality>, lhs: nat, rhs: nat, m: Interpretation<D>)
    requires Ordered(ir) && Entails(ir, leaves, Equality(lhs, rhs))
    requires forall e | e in leaves :: Evaluate(ir, m, e.left) == Evaluate(ir, m, e.right)
    ensures Evaluate(ir, m, lhs) == Evaluate(ir, m, rhs)
  {
    var rel: Relation := (x: nat, y: nat) => Evaluate(ir, m, x) == Evaluate(ir, m, y);
    KernelIsCongruence(ir, m, rel);
    assert Includes(rel, Elements(leaves));
    assert rel(lhs, rhs);
  }
}
