/** Reads `a[i]..[j]` that were replaced by variables: what it means that array tables give them back. */
module EliminatedReads {
  import opened Basics
  import opened Terms
  import opened ReadOnlyArrayTables

  type Tokens = nat -> Option<string>

  /** An eliminated read: its array operand, its index and the variable that replaced it,
      with the tokens of expressions as evaluated while the read is processed. */
  datatype Read = Read(operand: nat, index: nat, variable: nat, tokens: Tokens)

  predicate Selects(ir: Dag, id: nat)
    requires id < |ir|
  {
    ir[id].op.Select? && |ir[id].children| == 2
  }

  /** Selects are well sorted and a variable name has one sort. */
  ghost predicate WellSorted(ir: Dag)
    requires Ordered(ir)
  {
    && (forall id: nat | id < |ir| && Selects(ir, id) ::
          ir[ir[id].children[0]].sort.ArraySort? && ir[ir[id].children[0]].sort.element == ir[id].sort)
    && forall a: nat, b: nat | a < |ir| && b < |ir| && ir[a].op.Variable? && ir[a].op == ir[b].op :: ir[a].sort == ir[b].sort
  }

  /** The operand is a one-dimensional array. */
  ghost predicate ValidRead(ir: Dag, read: Read) {
    read.operand < |ir| && read.index < |ir| && read.variable < |ir| && Depth(ir[read.operand].sort) == 1
  }

  /** The array that a term denotes in the tables: a variable's own, or the one behind the
      handle selected from another. */
  function Evaluate(ir: Dag, tokens: Tokens, arrays: map<string, Array>, values: map<string, Array>, id: nat): Option<Array>
    requires Ordered(ir) && id < |ir|
    decreases id
  {
    if Selects(ir, id) then
      (match (Evaluate(ir, tokens, arrays, values, ir[id].children[0]), tokens(ir[id].children[1]))
       case (Some(a), Some(key)) => if At(a, key) in values then Some(values[At(a, key)]) else None
       case _ => None)
    else if ir[id].op.Variable? && ir[id].op.name in arrays then Some(arrays[ir[id].op.name])
    else None
  }

  /** In the tables, the operand's element at the index is the value of the variable. */
  ghost predicate Served(ir: Dag, read: Read, arrays: map<string, Array>, values: map<string, Array>)
    requires Ordered(ir) && ValidRead(ir, read)
  {
    var operand := Evaluate(ir, read.tokens, arrays, values, read.operand);
    && operand.Some? && read.tokens(read.index).Some?
    && read.tokens(read.variable) == Some(At(operand.value, read.tokens(read.index).value))
  }

  /** The term is a variable, or selected from such a term at an index with a token. */
  predicate HasTokens(ir: Dag, tokens: Tokens, id: nat)
    requires Ordered(ir) && id < |ir|
    decreases id
  {
    if Selects(ir, id) then HasTokens(ir, tokens, ir[id].children[0]) && tokens(ir[id].children[1]).Some?
    else ir[id].op.Variable?
  }

  ghost predicate Readable(ir: Dag, read: Read)
    requires Ordered(ir) && ValidRead(ir, read)
  {
    HasTokens(ir, read.tokens, read.operand) && read.tokens(read.index).Some? && read.tokens(read.variable).Some?
  }

  /** Two terms read the same variable at indices with the same tokens. */
  predicate SamePlace(ir: Dag, s: Tokens, x: nat, t: Tokens, y: nat)
    requires Ordered(ir) && x < |ir| && y < |ir|
    decreases x
  {
    if Selects(ir, x) then
      && Selects(ir, y) && s(ir[x].children[1]) == t(ir[y].children[1])
      && SamePlace(ir, s, ir[x].children[0], t, ir[y].children[0])
    else !Selects(ir, y) && ir[x].op == ir[y].op
  }

  /** Two reads of one place with different values. */
  ghost predicate Conflict(ir: Dag, a: Read, b: Read)
    requires Ordered(ir) && ValidRead(ir, a) && ValidRead(ir, b)
  {
    && SamePlace(ir, a.tokens, a.operand, b.tokens, b.operand)
    && a.tokens(a.index) == b.tokens(b.index) && a.tokens(a.variable) != b.tokens(b.variable)
  }

  /** The term selects from the variable along the path. */
  predicate IsPath(ir: Dag, tokens: Tokens, id: nat, name: string, path: seq<string>)
    requires Ordered(ir) && id < |ir|
    decreases id
  {
    if Selects(ir, id) then
      && path != [] && tokens(ir[id].children[1]) == Some(path[|path| - 1])
      && IsPath(ir, tokens, ir[id].children[0], name, path[..|path| - 1])
    else path == [] && ir[id].op == Variable(name)
  }

  /** The read is at this path of the variable. */
  ghost predicate ReadsAt(ir: Dag, read: Read, name: string, path: seq<string>)
    requires Ordered(ir) && ValidRead(ir, read)
  {
    && path != [] && read.tokens(read.index) == Some(path[|path| - 1])
    && IsPath(ir, read.tokens, read.operand, name, path[..|path| - 1])
  }

  ghost predicate AllValid(ir: Dag, eliminated: seq<Read>) {
    forall k | 0 <= k < |eliminated| :: ValidRead(ir, eliminated[k])
  }

  /** The reads can be served together: each has its tokens, and no two conflict. */
  ghost predicate Servable(ir: Dag, eliminated: seq<Read>)
    requires Ordered(ir) && AllValid(ir, eliminated)
  {
    && (forall k | 0 <= k < |eliminated| :: Readable(ir, eliminated[k]))
    && forall j, k | 0 <= j < |eliminated| && 0 <= k < |eliminated| :: !Conflict(ir, eliminated[j], eliminated[k])
  }

  ghost predicate AllServed(ir: Dag, eliminated: seq<Read>, arrays: map<string, Array>, values: map<string, Array>)
    requires Ordered(ir) && AllValid(ir, eliminated)
  {
    forall k | 0 <= k < |eliminated| :: Served(ir, eliminated[k], arrays, values)
  }

  ghost predicate SomeReadsAt(ir: Dag, eliminated: seq<Read>, name: string, path: seq<string>)
    requires Ordered(ir) && AllValid(ir, eliminated)
  {
    exists k :: 0 <= k < |eliminated| && ReadsAt(ir, eliminated[k], name, path)
  }

  ghost predicate Rebuilt(ir: Dag, eliminated: seq<Read>, name: string)
    requires Ordered(ir) && AllValid(ir, eliminated)
  {
    exists path :: SomeReadsAt(ir, eliminated, name, path)
  }

  /** Where nothing was read, a rebuilt array holds the default of its scalar sort. */
  ghost predicate DefaultElsewhere(ir: Dag, eliminated: seq<Read>, arrays: map<string, Array>, values: map<string, Array>, id: nat, path: seq<string>)
    requires Ordered(ir) && AllValid(ir, eliminated) && id < |ir| && ir[id].op.Variable?
  {
    var name, sort := ir[id].op.name, ir[id].sort;
    Rebuilt(ir, eliminated, name) && |path| == Depth(sort) && !SomeReadsAt(ir, eliminated, name, path) ==>
      path != [] && name in arrays && Follow(values, arrays[name], path) == Some(ScalarDefault(Strip(sort, |path|)))
  }

  lemma {:induction false} PathKnown(ir: Dag, tokens: Tokens, id: nat) returns (name: string, path: seq<string>)
    requires Ordered(ir) && id < |ir| && HasTokens(ir, tokens, id)
    ensures IsPath(ir, tokens, id, name, path)
    decreases id
  {
    if Selects(ir, id) {
      var front: seq<string>;
      name, front := PathKnown(ir, tokens, ir[id].children[0]);
      path := front + [tokens(ir[id].children[1]).value];
      assert path[..|path| - 1] == front;
    } else {
      name, path := ir[id].op.name, [];
    }
  }

  lemma {:induction false} PathHasTokens(ir: Dag, tokens: Tokens, id: nat, name: string, path: seq<string>)
    requires Ordered(ir) && id < |ir| && IsPath(ir, tokens, id, name, path)
    ensures HasTokens(ir, tokens, id)
    decreases id
  {
    if Selects(ir, id) {
      PathHasTokens(ir, tokens, ir[id].children[0], name, path[..|path| - 1]);
    }
  }

  /** Terms are at the same place exactly when their variables and paths are the same. */
  lemma {:induction false} SamePlaceExact(ir: Dag, s: Tokens, x: nat, t: Tokens, y: nat, m: string, p: seq<string>, n: string, q: seq<string>)
    requires Ordered(ir) && x < |ir| && y < |ir| && IsPath(ir, s, x, m, p) && IsPath(ir, t, y, n, q)
    ensures SamePlace(ir, s, x, t, y) <==> m == n && p == q
    decreases x
  {
    if Selects(ir, x) && Selects(ir, y) {
      SamePlaceExact(ir, s, ir[x].children[0], t, ir[y].children[0], m, p[..|p| - 1], n, q[..|q| - 1]);
      assert p == p[..|p| - 1] + [p[|p| - 1]] && q == q[..|q| - 1] + [q[|q| - 1]];
    }
  }

  lemma {:induction false} PathUnique(ir: Dag, tokens: Tokens, id: nat, m: string, p: seq<string>, n: string, q: seq<string>)
    requires Ordered(ir) && id < |ir| && IsPath(ir, tokens, id, m, p) && IsPath(ir, tokens, id, n, q)
    ensures m == n && p == q
    decreases id
  {
    if Selects(ir, id) {
      PathUnique(ir, tokens, ir[id].children[0], m, p[..|p| - 1], n, q[..|q| - 1]);
      assert p == p[..|p| - 1] + [p[|p| - 1]] && q == q[..|q| - 1] + [q[|q| - 1]];
    }
  }

  /** The array reached by following a path from another. */
  function Reach(values: map<string, Array>, a: Array, path: seq<string>): Option<Array>
    decreases |path|
  {
    if path == [] then Some(a)
    else if At(a, path[0]) in values then Reach(values, values[At(a, path[0])], path[1..])
    else None
  }

  lemma {:induction false} ReachLast(values: map<string, Array>, a: Array, path: seq<string>, key: string)
    ensures Reach(values, a, path + [key]) ==
            match Reach(values, a, path)
            case None => None
            case Some(b) => if At(b, key) in values then Some(values[At(b, key)]) else None
    ensures Follow(values, a, path + [key]) == (match Reach(values, a, path) case None => None case Some(b) => Some(At(b, key)))
    decreases |path|
  {
    if path != [] {
      assert (path + [key])[1..] == path[1..] + [key];
      if At(a, path[0]) in values {
        ReachLast(values, values[At(a, path[0])], path[1..], key);
      }
    }
  }

  /** Evaluating the term is following its path. */
  lemma {:induction false} EvaluateFollows(ir: Dag, tokens: Tokens, arrays: map<string, Array>, values: map<string, Array>, id: nat, name: string, path: seq<string>)
    requires Ordered(ir) && id < |ir| && IsPath(ir, tokens, id, name, path) && name in arrays
    ensures Evaluate(ir, tokens, arrays, values, id) == Reach(values, arrays[name], path)
    decreases id
  {
    if Selects(ir, id) {
      var front, key := path[..|path| - 1], path[|path| - 1];
      assert path == front + [key];
      EvaluateFollows(ir, tokens, arrays, values, ir[id].children[0], name, front);
      ReachLast(values, arrays[name], front, key);
    }
  }

  /** A read is served when following its path gives its variable's value. */
  lemma {:induction false} ServedByFollowing(ir: Dag, read: Read, arrays: map<string, Array>, values: map<string, Array>, name: string, path: seq<string>)
    requires Ordered(ir) && ValidRead(ir, read) && ReadsAt(ir, read, name, path) && name in arrays
    ensures Served(ir, read, arrays, values) <==>
            Follow(values, arrays[name], path).Some? && read.tokens(read.variable) == Follow(values, arrays[name], path)
  {
    var front, key := path[..|path| - 1], path[|path| - 1];
    assert path == front + [key];
    EvaluateFollows(ir, read.tokens, arrays, values, read.operand, name, front);
    ReachLast(values, arrays[name], front, key);
  }
}
