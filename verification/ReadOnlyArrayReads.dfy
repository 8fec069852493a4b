/** Eliminated reads: where they read, what they read, and when they can be served together. */
module ReadOnlyArrayReads {
  import opened Basics
  import opened Terms
  import opened ReadOnlyArrayTables
  import opened EliminatedReads

  /** A read with its concrete index path and value. */
  datatype Reading = Reading(loc: Location, sort: Sort, value: string)

  function Base(ir: Dag, id: nat): (base: nat)
    requires Ordered(ir) && id < |ir|
    ensures base < |ir|
    decreases id
  {
    if ir[id].op.Select? && |ir[id].children| == 2 then Base(ir, ir[id].children[0]) else id
  }

  /** Indices of a chain of selects, the variable's own first. */
  function Indices(ir: Dag, id: nat): seq<nat>
    requires Ordered(ir) && id < |ir|
    decreases id
  {
    if ir[id].op.Select? && |ir[id].children| == 2 then Indices(ir, ir[id].children[0]) + [ir[id].children[1]] else []
  }

  function TokensOf(tokens: Tokens, ids: seq<nat>): (r: Option<seq<string>>)
    ensures r.Some? ==> |r.value| == |ids|
  {
    if ids == [] then Some([]) else
    var n := |ids| - 1;
    match (TokensOf(tokens, ids[..n]), tokens(ids[n]))
    case (Some(front), Some(last)) => Some(front + [last])
    case _ => None
  }

  function Locate(ir: Dag, read: Read): Option<Reading>
    requires Ordered(ir) && read.operand < |ir|
  {
    var base := ir[Base(ir, read.operand)];
    if !base.op.Variable? then None else
    match (TokensOf(read.tokens, Indices(ir, read.operand) + [read.index]), read.tokens(read.variable))
    case (Some(path), Some(value)) => Some(Reading(Location(base.op.name, path), base.sort, value))
    case _ => None
  }

  lemma {:induction false} SpineDepth(ir: Dag, id: nat)
    requires Ordered(ir) && WellSorted(ir) && id < |ir|
    ensures Depth(ir[Base(ir, id)].sort) == Depth(ir[id].sort) + |Indices(ir, id)|
    decreases id
  {
    if ir[id].op.Select? && |ir[id].children| == 2 {
      SpineDepth(ir, ir[id].children[0]);
    }
  }

  function Reversed(s: seq<nat>): (r: seq<nat>)
    ensures |r| == |s|
  {
    if s == [] then [] else Reversed(s[1..]) + [s[0]]
  }

  lemma {:induction false} ReversedSnoc(s: seq<nat>, x: nat)
    ensures Reversed(s + [x]) == [x] + Reversed(s)
  {
    if s != [] {
      assert (s + [x])[1..] == s[1..] + [x];
      ReversedSnoc(s[1..], x);
    }
  }

  lemma {:induction false} NoTokens(tokens: Tokens, ids: seq<nat>, k: nat)
    requires k < |ids| && tokens(ids[k]).None?
    ensures TokensOf(tokens, ids).None?
  {
    var n := |ids| - 1;
    if k < n {
      NoTokens(tokens, ids[..n], k);
    }
  }

  predicate InRange(ir: Dag, eliminated: seq<Read>) {
    forall k | 0 <= k < |eliminated| :: eliminated[k].operand < |ir|
  }

  /** Every read's path and value, unless some read has none. */
  function LocateAll(ir: Dag, eliminated: seq<Read>): (r: Option<seq<Reading>>)
    requires Ordered(ir) && InRange(ir, eliminated)
  {
    if eliminated == [] then Some([]) else
    var n := |eliminated| - 1;
    match (LocateAll(ir, eliminated[..n]), Locate(ir, eliminated[n]))
    case (Some(front), Some(last)) => Some(front + [last])
    case _ => None
  }

  /** A failing prefix makes the whole fail. */
  lemma {:induction false} PrefixLocated(ir: Dag, eliminated: seq<Read>, n: nat)
    requires Ordered(ir) && InRange(ir, eliminated) && n <= |eliminated|
    requires LocateAll(ir, eliminated).Some?
    ensures LocateAll(ir, eliminated[..n]).Some? && LocateAll(ir, eliminated[..n]).value <= LocateAll(ir, eliminated).value
  {
    if n < |eliminated| {
      assert eliminated[..|eliminated| - 1][..n] == eliminated[..n];
      PrefixLocated(ir, eliminated[..|eliminated| - 1], n);
    } else {
      assert eliminated[..n] == eliminated;
    }
  }

  predicate Clash(a: Reading, b: Reading) {
    a.loc == b.loc && a.value != b.value
  }

  /** Reads of one array at one path have one value. */
  ghost predicate Agreeing(readings: seq<Reading>) {
    forall i, j | 0 <= i < |readings| && 0 <= j < |readings| :: !Clash(readings[i], readings[j])
  }

  /** Accepted: every read has a path and a value, and no two conflict. */
  ghost predicate Acceptable(ir: Dag, eliminated: seq<Read>)
    requires Ordered(ir) && InRange(ir, eliminated)
  {
    LocateAll(ir, eliminated).Some? && Agreeing(LocateAll(ir, eliminated).value)
  }

  lemma {:induction false} NotAcceptable(ir: Dag, eliminated: seq<Read>, n: nat)
    requires Ordered(ir) && InRange(ir, eliminated) && n <= |eliminated|
    requires LocateAll(ir, eliminated[..n]).None? || !Agreeing(LocateAll(ir, eliminated[..n]).value)
    ensures !Acceptable(ir, eliminated)
  {
    hide LocateAll, Clash;
    if LocateAll(ir, eliminated).Some? {
      PrefixLocated(ir, eliminated, n);
      var front, all := LocateAll(ir, eliminated[..n]).value, LocateAll(ir, eliminated).value;
      assert forall i | 0 <= i < |front| :: front[i] == all[i];
    }
  }

  /** The reading's array is a variable of the DAG, of its sort. */
  ghost predicate Sorted(ir: Dag, r: Reading) {
    exists id: nat :: id < |ir| && ir[id].op == Variable(r.loc.name) && ir[id].sort == r.sort
  }

  lemma {:induction false} LocatedDepth(ir: Dag, read: Read)
    requires Ordered(ir) && WellSorted(ir) && ValidRead(ir, read) && Locate(ir, read).Some?
    ensures var r := Locate(ir, read).value;
            Sorted(ir, r) && r.sort.ArraySort? && 0 < Depth(r.sort) == |r.loc.path|
  {
    SpineDepth(ir, read.operand);
    DepthOfArray(ir[Base(ir, read.operand)].sort);
  }

  lemma {:induction false} OneSort(ir: Dag, readings: seq<Reading>, plan: Plan, r: Reading)
    requires Ordered(ir) && WellSorted(ir) && (forall x | x in readings :: Sorted(ir, x)) && Sorted(ir, r)
    requires Covers(readings, plan) && r.loc.name in plan.sorts
    ensures plan.sorts[r.loc.name] == r.sort
  {
    var i :| 0 <= i < |readings| && readings[i].loc.name == r.loc.name;
    assert CoveredAt(readings[i], plan) && Sorted(ir, readings[i]);
    var a: nat :| a < |ir| && ir[a].op == Variable(r.loc.name) && ir[a].sort == readings[i].sort;
    var b: nat :| b < |ir| && ir[b].op == Variable(r.loc.name) && ir[b].sort == r.sort;
  }

  lemma {:induction false} LocateNext(ir: Dag, eliminated: seq<Read>, k: nat)
    requires Ordered(ir) && InRange(ir, eliminated) && k < |eliminated|
    requires LocateAll(ir, eliminated[..k]).Some?
    ensures LocateAll(ir, eliminated[..k + 1]) ==
            if Locate(ir, eliminated[k]).None? then None else Some(LocateAll(ir, eliminated[..k]).value + [Locate(ir, eliminated[k]).value])
  {
    assert eliminated[..k + 1][..k] == eliminated[..k];
  }

  lemma {:induction false} NothingYet(ir: Dag, eliminated: seq<Read>)
    requires Ordered(ir) && InRange(ir, eliminated)
    ensures LocateAll(ir, eliminated[..0]) == Some([]) && Agreeing([]) && Covers([], Plan(map[], map[], map[], map[]))
  {
  }

  lemma {:induction false} NamesCovered(ir: Dag, eliminated: seq<Read>, readings: seq<Reading>, plan: Plan)
    requires Ordered(ir) && InRange(ir, eliminated)
    requires LocateAll(ir, eliminated) == Some(readings) && Agreeing(readings) && Covers(readings, plan)
    ensures Acceptable(ir, eliminated) && forall n | n in plan.sorts :: exists r :: r in readings && r.loc.name == n
  {
    forall n | n in plan.sorts ensures exists r :: r in readings && r.loc.name == n {
      var i :| 0 <= i < |readings| && readings[i].loc.name == n;
    }
  }

  /** The plan holds the readings and nothing else. */
  ghost predicate Covers(readings: seq<Reading>, plan: Plan) {
    && (forall r | r in readings :: CoveredAt(r, plan))
    && (forall l | l in plan.table :: exists i :: 0 <= i < |readings| && readings[i].loc == l)
    && (forall name | name in plan.sorts :: exists i :: 0 <= i < |readings| && readings[i].loc.name == name)
  }

  ghost predicate CoveredAt(r: Reading, plan: Plan) {
    && r.loc in plan.table && plan.table[r.loc] == r.value
    && r.loc.name in plan.sorts && plan.sorts[r.loc.name] == r.sort
  }

  /** Following a read's path gives its value. */
  ghost predicate ReadsBackAt(r: Reading, arrays: map<string, Array>, values: map<string, Array>) {
    r.loc.path != [] && r.loc.name in arrays && Follow(values, arrays[r.loc.name], r.loc.path) == Some(r.value)
  }

  /** Following any other full path of the same array gives the scalar default. */
  ghost predicate DefaultAt(readings: seq<Reading>, r: Reading, path: seq<string>, arrays: map<string, Array>, values: map<string, Array>) {
    |path| == Depth(r.sort) && path != [] && (forall x | x in readings :: x.loc != Location(r.loc.name, path)) ==>
    r.loc.name in arrays && Follow(values, arrays[r.loc.name], path) == Some(ScalarDefault(Strip(r.sort, |path|)))
  }

  /** Every full path of a rebuilt array reads as what was read there, or as the default. */
  ghost predicate ReadsBack(readings: seq<Reading>, arrays: map<string, Array>, values: map<string, Array>) {
    forall r | r in readings :: ReadsBackAt(r, arrays, values) && forall path :: DefaultAt(readings, r, path, arrays, values)
  }

  lemma {:induction false} CoversReadsBack(original: map<string, Array>, store: Tables, plan: Plan, readings: seq<Reading>)
    requires Consistent(original, store, plan) && Covers(readings, plan)
    ensures ReadsBack(readings, store.arrays, store.values)
  {
    hide Consistent, Covers, ReadsBackAt, DefaultAt;
    forall r | r in readings
      ensures ReadsBackAt(r, store.arrays, store.values) && forall path :: DefaultAt(readings, r, path, store.arrays, store.values)
    {
      OneReadsBack(original, store, plan, readings, r);
    }
  }

  lemma {:induction false} OneReadsBack(original: map<string, Array>, store: Tables, plan: Plan, readings: seq<Reading>, r: Reading)
    requires Consistent(original, store, plan) && Covers(readings, plan) && r in readings
    ensures ReadsBackAt(r, store.arrays, store.values)
    ensures forall path :: DefaultAt(readings, r, path, store.arrays, store.values)
  {
    hide Follow, Depth, RootsOk, NodesOk, BlanksOk, Unshared, Kept, RecordOk, Strip, ScalarDefault;
    assert CoveredAt(r, plan) && Rooted(plan, r.loc);
    RootFollow(store, plan, r.loc.name, r.loc.path);
    forall path ensures DefaultAt(readings, r, path, store.arrays, store.values) {
      if |path| == Depth(r.sort) && path != [] && forall x | x in readings :: x.loc != Location(r.loc.name, path) {
        RootFollow(store, plan, r.loc.name, path);
        assert forall i | 0 <= i < |readings| :: readings[i] in readings;
        assert Location(r.loc.name, path) !in plan.table;
      }
    }
  }

  lemma {:induction false} RootRecord(store: Tables, plan: Plan, name: string)
    requires RootsOk(store, plan) && name in plan.sorts
    ensures name in store.arrays && RecordOk(plan, Location(name, []), store.arrays[name])
  {
    hide RecordOk;
  }

  lemma {:induction false} RootFollow(store: Tables, plan: Plan, name: string, path: seq<string>)
    requires RootsOk(store, plan) && NodesOk(store, plan) && BlanksOk(store, plan) && Closed(plan)
    requires name in plan.sorts && |path| == Depth(plan.sorts[name]) && path != []
    ensures name in store.arrays && Follow(store.values, store.arrays[name], path) == Some(Content(plan, Location(name, path)))
  {
    hide RootsOk, NodesOk, BlanksOk, Closed, Depth, Strip, Content, Follow;
    assert [] + path == path;
    RootRecord(store, plan, name);
    FollowExact(store, plan, Location(name, []), store.arrays[name], path);
  }

  /** One more reading, accepted: the plan grows by exactly it. */
  lemma {:induction false} CoversMore(readings: seq<Reading>, plan: Plan, r: Reading, grown: Plan)
    requires Covers(readings, plan) && Agreeing(readings) && Agrees(plan.table, r.loc, r.value)
    requires r.loc.name in plan.sorts ==> plan.sorts[r.loc.name] == r.sort
    requires grown.table == plan.table[r.loc := r.value] && grown.sorts == plan.sorts[r.loc.name := r.sort]
    ensures Covers(readings + [r], grown) && Agreeing(readings + [r])
  {
    hide CoveredAt, Clash;
    TableMore(readings, plan, r, grown);
    NamesMore(readings, plan, r, grown);
    hide Covers;
    StillAgreeing(readings, plan, r);
  }

  lemma {:induction false} NamesMore(readings: seq<Reading>, plan: Plan, r: Reading, grown: Plan)
    requires Covers(readings, plan) && grown.sorts == plan.sorts[r.loc.name := r.sort]
    ensures forall name | name in grown.sorts :: exists i :: 0 <= i < |readings + [r]| && (readings + [r])[i].loc.name == name
  {
    hide CoveredAt;
    var more := readings + [r];
    forall name | name in grown.sorts ensures exists i :: 0 <= i < |more| && more[i].loc.name == name {
      if name == r.loc.name {
        assert more[|readings|] == r;
      } else {
        var i :| 0 <= i < |readings| && readings[i].loc.name == name;
        assert more[i].loc.name == name;
      }
    }
  }

  lemma {:induction false} StillAgreeing(readings: seq<Reading>, plan: Plan, r: Reading)
    requires Covers(readings, plan) && Agreeing(readings) && Agrees(plan.table, r.loc, r.value)
    ensures Agreeing(readings + [r])
  {
    var more := readings + [r];
    forall i | 0 <= i < |readings| ensures !Clash(readings[i], r) {
      assert CoveredAt(readings[i], plan);
    }
    forall i, j | 0 <= i < |more| && 0 <= j < |more| ensures !Clash(more[i], more[j]) {
      if i < |readings| && j < |readings| {
        assert !Clash(readings[i], readings[j]);
      }
    }
  }

  lemma {:induction false} TableMore(readings: seq<Reading>, plan: Plan, r: Reading, grown: Plan)
    requires Covers(readings, plan) && Agrees(plan.table, r.loc, r.value)
    requires r.loc.name in plan.sorts ==> plan.sorts[r.loc.name] == r.sort
    requires grown.table == plan.table[r.loc := r.value] && grown.sorts == plan.sorts[r.loc.name := r.sort]
    ensures forall x | x in readings + [r] :: CoveredAt(x, grown)
    ensures forall l | l in grown.table :: exists i :: 0 <= i < |readings + [r]| && (readings + [r])[i].loc == l
  {
    var more := readings + [r];
    forall x | x in more ensures CoveredAt(x, grown) {
      assert x == r || CoveredAt(x, plan);
    }
    forall l | l in grown.table ensures exists i :: 0 <= i < |more| && more[i].loc == l {
      if l == r.loc {
        assert more[|readings|] == r;
      } else {
        var i :| 0 <= i < |readings| && readings[i].loc == l;
        assert more[i].loc == l;
      }
    }
  }

  /** One more reading, refused: it conflicts with an earlier one. */
  lemma {:induction false} ClashFound(readings: seq<Reading>, plan: Plan, r: Reading)
    requires Covers(readings, plan) && !Agrees(plan.table, r.loc, r.value)
    ensures !Agreeing(readings + [r])
  {
    var i :| 0 <= i < |readings| && readings[i].loc == r.loc;
    assert CoveredAt(readings[i], plan);
    var more := readings + [r];
    assert Clash(more[i], more[|readings|]);
  }

  lemma {:induction false} TokensMore(tokens: Tokens, ids: seq<nat>, x: nat)
    ensures TokensOf(tokens, ids + [x]) ==
            if TokensOf(tokens, ids).Some? && tokens(x).Some? then Some(TokensOf(tokens, ids).value + [tokens(x).value]) else None
  {
    assert (ids + [x])[..|ids|] == ids;
  }

  /** Unwinding finds the variable and the tokens exactly when the term has them. */
  lemma {:induction false} SpinePath(ir: Dag, tokens: Tokens, id: nat)
    requires Ordered(ir) && id < |ir|
    ensures var base, path := ir[Base(ir, id)].op, TokensOf(tokens, Indices(ir, id));
            && (HasTokens(ir, tokens, id) <==> base.Variable? && path.Some?)
            && (base.Variable? && path.Some? ==> IsPath(ir, tokens, id, base.name, path.value))
    decreases id
  {
    hide TokensOf;
    if Selects(ir, id) {
      SpinePath(ir, tokens, ir[id].children[0]);
      TokensMore(tokens, Indices(ir, ir[id].children[0]), ir[id].children[1]);
      if TokensOf(tokens, Indices(ir, id)).Some? {
        var path, front := TokensOf(tokens, Indices(ir, id)).value, TokensOf(tokens, Indices(ir, ir[id].children[0])).value;
        assert path[..|path| - 1] == front;
      }
    } else {
      assert TokensOf(tokens, []) == Some([]) by { NoIndices(tokens); }
    }
  }

  lemma {:induction false} NoIndices(tokens: Tokens)
    ensures TokensOf(tokens, []) == Some([])
  {
  }

  /** A read is located exactly when it is readable, and where it reads. */
  lemma {:induction false} LocateReads(ir: Dag, read: Read)
    requires Ordered(ir) && ValidRead(ir, read)
    ensures Locate(ir, read).Some? <==> Readable(ir, read)
    ensures Locate(ir, read).Some? ==>
              var r := Locate(ir, read).value;
              ReadsAt(ir, read, r.loc.name, r.loc.path) && read.tokens(read.variable) == Some(r.value)
  {
    hide TokensOf, Base, Indices, HasTokens, IsPath;
    SpinePath(ir, read.tokens, read.operand);
    TokensMore(read.tokens, Indices(ir, read.operand), read.index);
    if Locate(ir, read).Some? {
      var r, front := Locate(ir, read).value, TokensOf(read.tokens, Indices(ir, read.operand)).value;
      assert r.loc.path[..|r.loc.path| - 1] == front;
    }
  }

  lemma {:induction false} ClashIsConflict(ir: Dag, a: Read, b: Read)
    requires Ordered(ir) && ValidRead(ir, a) && ValidRead(ir, b) && Locate(ir, a).Some? && Locate(ir, b).Some?
    ensures Clash(Locate(ir, a).value, Locate(ir, b).value) <==> Conflict(ir, a, b)
  {
    hide Locate, IsPath, SamePlace;
    LocateReads(ir, a);
    LocateReads(ir, b);
    var p, q := Locate(ir, a).value.loc, Locate(ir, b).value.loc;
    SamePlaceExact(ir, a.tokens, a.operand, b.tokens, b.operand, p.name, p.path[..|p.path| - 1], q.name, q.path[..|q.path| - 1]);
    assert p.path == p.path[..|p.path| - 1] + [p.path[|p.path| - 1]];
    assert q.path == q.path[..|q.path| - 1] + [q.path[|q.path| - 1]];
  }

  lemma {:induction false} LocateEach(ir: Dag, eliminated: seq<Read>)
    requires Ordered(ir) && InRange(ir, eliminated)
    ensures LocateAll(ir, eliminated).Some? <==> forall k | 0 <= k < |eliminated| :: Locate(ir, eliminated[k]).Some?
    ensures LocateAll(ir, eliminated).Some? ==>
              |LocateAll(ir, eliminated).value| == |eliminated| &&
              forall k | 0 <= k < |eliminated| :: Locate(ir, eliminated[k]) == Some(LocateAll(ir, eliminated).value[k])
  {
    hide Locate;
    if eliminated != [] {
      var n := |eliminated| - 1;
      LocateEach(ir, eliminated[..n]);
      if LocateAll(ir, eliminated[..n]).None? {
        var k :| 0 <= k < n && Locate(ir, eliminated[..n][k]).None?;
        assert Locate(ir, eliminated[k]).None?;
      } else {
        assert forall k | 0 <= k < n :: eliminated[..n][k] == eliminated[k];
      }
    }
  }

  /** What is accepted is what can be served together. */
  lemma {:induction false} AcceptableIsServable(ir: Dag, eliminated: seq<Read>)
    requires Ordered(ir) && AllValid(ir, eliminated)
    ensures Acceptable(ir, eliminated) <==> Servable(ir, eliminated)
  {
    hide Locate, LocateAll, Readable, Conflict, Clash;
    LocateEach(ir, eliminated);
    forall k | 0 <= k < |eliminated| ensures Locate(ir, eliminated[k]).Some? <==> Readable(ir, eliminated[k]) {
      LocateReads(ir, eliminated[k]);
    }
    if LocateAll(ir, eliminated).Some? {
      var readings := LocateAll(ir, eliminated).value;
      forall j, k | 0 <= j < |eliminated| && 0 <= k < |eliminated|
        ensures Clash(readings[j], readings[k]) <==> Conflict(ir, eliminated[j], eliminated[k])
      {
        ClashIsConflict(ir, eliminated[j], eliminated[k]);
      }
    }
  }

  /** Tables that read back what was located serve every read. */
  lemma {:induction false} ReadsBackServes(ir: Dag, eliminated: seq<Read>, readings: seq<Reading>, arrays: map<string, Array>, values: map<string, Array>)
    requires Ordered(ir) && AllValid(ir, eliminated) && LocateAll(ir, eliminated) == Some(readings) && ReadsBack(readings, arrays, values)
    ensures AllServed(ir, eliminated, arrays, values)
  {
    hide Locate, LocateAll, ReadsAt, Served, DefaultAt;
    LocateEach(ir, eliminated);
    forall k | 0 <= k < |eliminated| ensures Served(ir, eliminated[k], arrays, values) {
      LocateReads(ir, eliminated[k]);
      var r := readings[k];
      assert ReadsBackAt(r, arrays, values);
      ServedByFollowing(ir, eliminated[k], arrays, values, r.loc.name, r.loc.path);
    }
  }

  lemma {:induction false} ReadsAtOnce(ir: Dag, read: Read, m: string, p: seq<string>, n: string, q: seq<string>)
    requires Ordered(ir) && ValidRead(ir, read) && ReadsAt(ir, read, m, p) && ReadsAt(ir, read, n, q)
    ensures m == n && p == q
  {
    hide IsPath;
    PathUnique(ir, read.tokens, read.operand, m, p[..|p| - 1], n, q[..|q| - 1]);
    assert p == p[..|p| - 1] + [p[|p| - 1]] && q == q[..|q| - 1] + [q[|q| - 1]];
  }

  /** The readings are exactly the places that are read. */
  lemma {:induction false} ReadingsExact(ir: Dag, eliminated: seq<Read>, readings: seq<Reading>, name: string, path: seq<string>)
    requires Ordered(ir) && AllValid(ir, eliminated) && LocateAll(ir, eliminated) == Some(readings)
    ensures SomeReadsAt(ir, eliminated, name, path) <==> exists r :: r in readings && r.loc == Location(name, path)
  {
    hide Locate, LocateAll, ReadsAt;
    LocateEach(ir, eliminated);
    if k :| 0 <= k < |eliminated| && ReadsAt(ir, eliminated[k], name, path) {
      LocateReads(ir, eliminated[k]);
      ReadsAtOnce(ir, eliminated[k], name, path, readings[k].loc.name, readings[k].loc.path);
      assert readings[k] in readings;
    }
    if r :| r in readings && r.loc == Location(name, path) {
      var k :| 0 <= k < |readings| && readings[k] == r;
      LocateReads(ir, eliminated[k]);
    }
  }

  lemma {:induction false} RebuiltNames(ir: Dag, eliminated: seq<Read>, readings: seq<Reading>, name: string)
    requires Ordered(ir) && AllValid(ir, eliminated) && LocateAll(ir, eliminated) == Some(readings)
    ensures Rebuilt(ir, eliminated, name) <==> exists r :: r in readings && r.loc.name == name
  {
    hide LocateAll, SomeReadsAt;
    if path :| SomeReadsAt(ir, eliminated, name, path) {
      ReadingsExact(ir, eliminated, readings, name, path);
    }
    if r :| r in readings && r.loc.name == name {
      ReadingsExact(ir, eliminated, readings, name, r.loc.path);
    }
  }

  /** Elsewhere such tables hold the defaults. */
  lemma {:induction false} ReadsBackDefaults(ir: Dag, eliminated: seq<Read>, readings: seq<Reading>, arrays: map<string, Array>, values: map<string, Array>, id: nat, path: seq<string>)
    requires Ordered(ir) && WellSorted(ir) && AllValid(ir, eliminated) && LocateAll(ir, eliminated) == Some(readings)
    requires ReadsBack(readings, arrays, values) && id < |ir| && ir[id].op.Variable?
    ensures DefaultElsewhere(ir, eliminated, arrays, values, id, path)
  {
    hide Locate, LocateAll, ReadsBackAt, SomeReadsAt, Rebuilt, Sorted, Follow, Strip, ScalarDefault;
    var name, sort := ir[id].op.name, ir[id].sort;
    RebuiltNames(ir, eliminated, readings, name);
    ReadingsExact(ir, eliminated, readings, name, path);
    LocateEach(ir, eliminated);
    if r :| r in readings && r.loc.name == name {
      var k :| 0 <= k < |readings| && readings[k] == r;
      LocatedDepth(ir, eliminated[k]);
      SortOfName(ir, r, id);
      assert DefaultAt(readings, r, path, arrays, values);
    }
  }

  lemma {:induction false} SortOfName(ir: Dag, r: Reading, id: nat)
    requires Ordered(ir) && WellSorted(ir) && Sorted(ir, r) && id < |ir| && ir[id].op == Variable(r.loc.name)
    ensures ir[id].sort == r.sort
  {
  }
}
