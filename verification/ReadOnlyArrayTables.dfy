/** Array tables as a trie of nested arrays behind handles, and the plan that says what they mean. */
module ReadOnlyArrayTables {
  import opened Basics
  import opened Terms
  import Decimals

  datatype Entry = Entry(key: string, value: string)
  datatype Array = Array(indexSort: string, elemSort: string, default: string, entries: seq<Entry>)

  function ScalarDefault(sort: Sort): string {
    var name := Spell(sort);
    if name == "Int" || name == "Real" then "#n:0"
    else if name == "Bool" then "#b:0"
    else "@roae-default:" + name
  }

  /** Number of indices a full read of the sort takes. */
  function Depth(sort: Sort): nat {
    if sort.ArraySort? then 1 + Depth(sort.element) else 0
  }

  /** The sort left after `n` indices. */
  function Strip(sort: Sort, n: nat): (s: Sort)
    requires n <= Depth(sort)
    ensures Depth(s) == Depth(sort) - n
  {
    if n == 0 then sort else Strip(sort.element, n - 1)
  }

  lemma {:induction false} StripStep(sort: Sort, n: nat)
    requires n < Depth(sort)
    ensures Strip(sort, n).ArraySort? && Strip(sort, n + 1) == Strip(sort, n).element
  {
    if n > 0 {
      StripStep(sort.element, n - 1);
    }
  }

  /** The first entry with the key. */
  function Find(entries: seq<Entry>, key: string): Option<string> {
    if entries == [] then None
    else if entries[0].key == key then Some(entries[0].value)
    else Find(entries[1..], key)
  }

  lemma {:induction false} FindAppended(entries: seq<Entry>, key: string, value: string, other: string)
    requires Find(entries, key).None?
    ensures Find(entries + [Entry(key, value)], other) == if other == key then Some(value) else Find(entries, other)
  {
    var more := entries + [Entry(key, value)];
    if entries != [] {
      assert more[0] == entries[0] && more[1..] == entries[1..] + [Entry(key, value)];
      FindAppended(entries[1..], key, value, other);
    }
  }

  function At(a: Array, key: string): string {
    match Find(a.entries, key)
    case Some(value) => value
    case None => a.default
  }

  /** Nested reads: every element but the last is the handle of another array. */
  function Follow(values: map<string, Array>, a: Array, path: seq<string>): Option<string>
    requires path != []
    decreases |path|
  {
    var token := At(a, path[0]);
    if |path| == 1 then Some(token)
    else if token in values then Follow(values, values[token], path[1..])
    else None
  }

  function Handle(k: nat): string { "@roae-array!" + Decimals.Decimal(k) }

  lemma {:induction false} HandleInjective(j: nat, k: nat)
    requires Handle(j) == Handle(k)
    ensures j == k
  {
    assert Decimals.Decimal(j) == Handle(j)[|"@roae-array!"|..];
    assert Decimals.Decimal(k) == Handle(k)[|"@roae-array!"|..];
    Decimals.DecimalInjective(j, k);
  }

  datatype Location = Location(name: string, path: seq<string>)

  /** What the tables mean: the inner array kept at each index prefix, the untouched
      default arrays, the rebuilt variables, and the scalar stored at each full path. */
  datatype Plan = Plan(node: map<Location, string>, blank: map<string, Sort>, sorts: map<string, Sort>, table: map<Location, string>)

  datatype Tables = Tables(arrays: map<string, Array>, values: map<string, Array>)

  function Child(loc: Location, key: string): Location { Location(loc.name, loc.path + [key]) }

  function Parent(loc: Location): Location
    requires loc.path != []
  {
    Location(loc.name, loc.path[..|loc.path| - 1])
  }

  function Lookup(m: map<Location, string>, loc: Location): Option<string> {
    if loc in m then Some(m[loc]) else None
  }

  ghost predicate DefaultOk(plan: Plan, default: string, sort: Sort) {
    if sort.ArraySort? then default in plan.blank && plan.blank[default] == sort else default == ScalarDefault(sort)
  }

  ghost predicate HeaderOk(plan: Plan, sort: Sort, a: Array) {
    sort.ArraySort? && a.indexSort == Spell(sort.index) && a.elemSort == Spell(sort.element) && DefaultOk(plan, a.default, sort.element)
  }

  /** An array with no entry. */
  ghost predicate Empty(plan: Plan, sort: Sort, a: Array) {
    HeaderOk(plan, sort, a) && a.entries == []
  }

  /** The array kept at a location: its entries are exactly the plan's children of the location. */
  ghost predicate RecordOk(plan: Plan, loc: Location, a: Array) {
    && loc.name in plan.sorts && |loc.path| < Depth(plan.sorts[loc.name])
    && HeaderOk(plan, Strip(plan.sorts[loc.name], |loc.path|), a)
    && forall key :: Find(a.entries, key) == Stored(plan, loc, key)
  }

  /** What the plan puts under an index of a location: a scalar or an inner array. */
  function Stored(plan: Plan, loc: Location, key: string): Option<string>
    requires loc.name in plan.sorts
  {
    Lookup(if |loc.path| + 1 == Depth(plan.sorts[loc.name]) then plan.table else plan.node, Child(loc, key))
  }

  ghost predicate Rooted(plan: Plan, loc: Location) {
    loc.path != [] && (Parent(loc).path == [] || Parent(loc) in plan.node)
  }

  /** Stored paths and inner arrays hang on inner arrays, up to a variable. */
  ghost predicate Closed(plan: Plan) {
    && (forall l | l in plan.node :: Rooted(plan, l))
    && forall l | l in plan.table :: Rooted(plan, l)
  }

  ghost predicate RootsOk(store: Tables, plan: Plan) {
    forall name | name in plan.sorts :: name in store.arrays && RecordOk(plan, Location(name, []), store.arrays[name])
  }

  ghost predicate NodesOk(store: Tables, plan: Plan) {
    forall l | l in plan.node :: plan.node[l] in store.values && RecordOk(plan, l, store.values[plan.node[l]])
  }

  ghost predicate BlanksOk(store: Tables, plan: Plan) {
    forall h | h in plan.blank :: h in store.values && Empty(plan, plan.blank[h], store.values[h])
  }

  /** No two locations share an array, and none is a default or an array that was there before. */
  ghost predicate Unshared(original: map<string, Array>, plan: Plan) {
    && (forall l, m | l in plan.node && m in plan.node && plan.node[l] == plan.node[m] :: l == m)
    && (forall l | l in plan.node :: plan.node[l] !in plan.blank && plan.node[l] !in original)
    && forall h | h in plan.blank :: h !in original
  }

  ghost predicate Kept(original: map<string, Array>, store: Tables) {
    forall h | h in original :: h in store.values && store.values[h] == original[h]
  }

  ghost predicate FullPaths(plan: Plan) {
    forall l | l in plan.table :: l.name in plan.sorts && |l.path| == Depth(plan.sorts[l.name])
  }

  ghost predicate Consistent(original: map<string, Array>, store: Tables, plan: Plan) {
    && RootsOk(store, plan) && NodesOk(store, plan) && BlanksOk(store, plan) && Closed(plan)
    && Unshared(original, plan) && Kept(original, store) && FullPaths(plan)
  }

  /** Untouched arrays read as the scalar default everywhere. */
  lemma {:induction false} FollowBlank(store: Tables, plan: Plan, sort: Sort, a: Array, path: seq<string>)
    requires BlanksOk(store, plan) && Empty(plan, sort, a) && |path| == Depth(sort)
    ensures Follow(store.values, a, path) == Some(ScalarDefault(Strip(sort, |path|)))
    decreases |path|
  {
    StripStep(sort, 0);
    if |path| > 1 {
      FollowBlank(store, plan, sort.element, store.values[a.default], path[1..]);
    }
  }

  lemma {:induction false} PrefixesRooted(plan: Plan, l: Location, n: nat)
    requires Closed(plan) && (l in plan.node || l in plan.table) && 0 < n < |l.path|
    ensures Location(l.name, l.path[..n]) in plan.node
    decreases |l.path|
  {
    hide Depth;
    assert Rooted(plan, l);
    var p := Parent(l);
    assert p.path[..n] == l.path[..n];
    if n < |p.path| {
      PrefixesRooted(plan, p, n);
    } else {
      assert p.path[..n] == p.path;
    }
  }

  lemma {:induction false} StripSplit(sort: Sort, n: nat, m: nat)
    requires n + m <= Depth(sort)
    ensures Strip(Strip(sort, n), m) == Strip(sort, n + m)
  {
    if n > 0 {
      StripSplit(sort.element, n - 1, m);
    }
  }

  /** Following a full path from a location gives the stored scalar, or the default. */
  lemma {:induction false} FollowExact(store: Tables, plan: Plan, loc: Location, a: Array, path: seq<string>)
    requires NodesOk(store, plan) && BlanksOk(store, plan) && Closed(plan) && RecordOk(plan, loc, a)
    requires |loc.path| + |path| == Depth(plan.sorts[loc.name])
    ensures Follow(store.values, a, path) ==
            Some(Content(plan, Location(loc.name, loc.path + path)))
    decreases |path|
  {
    hide Strip, Closed, Empty, ScalarDefault;
    var sort := plan.sorts[loc.name];
    var whole := Location(loc.name, loc.path + path);
    StripStep(sort, |loc.path|);
    var next := Child(loc, path[0]);
    assert Find(a.entries, path[0]) == Stored(plan, loc, path[0]);
    if |path| == 1 {
      assert path == [path[0]] && next == whole;
    } else if next in plan.node {
      FollowExact(store, plan, next, store.values[plan.node[next]], path[1..]);
      assert next.path + path[1..] == whole.path;
    } else {
      Untouched(plan, loc, path);
      BlankBelow(store, plan, sort, |loc.path|, a.default, path[1..]);
    }
  }

  lemma {:induction false} Untouched(plan: Plan, loc: Location, path: seq<string>)
    requires Closed(plan) && |path| > 1 && Child(loc, path[0]) !in plan.node
    ensures Location(loc.name, loc.path + path) !in plan.table
  {
    var whole := Location(loc.name, loc.path + path);
    assert whole.path[..|loc.path| + 1] == Child(loc, path[0]).path;
    if whole in plan.table {
      PrefixesRooted(plan, whole, |loc.path| + 1);
      assert false;
    }
  }

  lemma {:induction false} BlankBelow(store: Tables, plan: Plan, sort: Sort, n: nat, default: string, path: seq<string>)
    requires BlanksOk(store, plan) && n < Depth(sort) && path != [] && n + 1 + |path| == Depth(sort)
    requires Strip(sort, n).ArraySort? && DefaultOk(plan, default, Strip(sort, n).element)
    ensures default in store.values
    ensures Follow(store.values, store.values[default], path) == Some(ScalarDefault(Strip(sort, n + 1 + |path|)))
  {
    StripStep(sort, n);
    FollowBlank(store, plan, Strip(sort, n + 1), store.values[default], path);
    StripSplit(sort, n + 1, |path|);
  }

  /** The scalar at a full path. */
  function Content(plan: Plan, loc: Location): string
    requires loc.name in plan.sorts && |loc.path| == Depth(plan.sorts[loc.name])
  {
    if loc in plan.table then plan.table[loc] else ScalarDefault(Strip(plan.sorts[loc.name], |loc.path|))
  }

  /** A new default array changes nothing else. */
  lemma {:induction false} GrowBlank(original: map<string, Array>, store: Tables, plan: Plan, h: string, sort: Sort, a: Array)
    requires Consistent(original, store, plan) && h !in store.values && Empty(plan, sort, a)
    ensures Consistent(original, store.(values := store.values[h := a]), plan.(blank := plan.blank[h := sort]))
  {
    hide RootsOk, NodesOk, BlanksOk, Closed, Unshared, Kept, FullPaths, RecordOk, Empty;
    var next, grown := store.(values := store.values[h := a]), plan.(blank := plan.blank[h := sort]);
    FreshHandle(original, store, plan, h);
    RecordsGrown(store, next, plan, grown);
    BlanksGrown(store, plan, h, sort, a);
    SameShape(original, plan, grown);
    KeptSame(original, store, next, h);
  }

  lemma {:induction false} RecordsGrown(store: Tables, next: Tables, plan: Plan, grown: Plan)
    requires RootsOk(store, plan) && NodesOk(store, plan)
    requires grown.node == plan.node && grown.table == plan.table && grown.sorts == plan.sorts
    requires forall h | h in plan.blank :: h in grown.blank && grown.blank[h] == plan.blank[h]
    requires next.arrays == store.arrays && forall h | h in store.values :: h in next.values && next.values[h] == store.values[h]
    ensures RootsOk(next, grown) && NodesOk(next, grown)
  {
    hide RecordOk;
    forall name | name in grown.sorts ensures RecordOk(grown, Location(name, []), next.arrays[name]) {
      RecordUnder(plan, Location(name, []), store.arrays[name]);
      RecordGrown(plan, grown, Location(name, []), next.arrays[name]);
    }
    forall l | l in grown.node ensures RecordOk(grown, l, next.values[grown.node[l]]) {
      RecordUnder(plan, l, store.values[plan.node[l]]);
      RecordGrown(plan, grown, l, next.values[grown.node[l]]);
    }
  }

  lemma {:induction false} RecordUnder(plan: Plan, loc: Location, a: Array)
    requires RecordOk(plan, loc, a)
    ensures loc.name in plan.sorts && |loc.path| < Depth(plan.sorts[loc.name])
  {
  }

  lemma {:induction false} BlanksGrown(store: Tables, plan: Plan, h: string, sort: Sort, a: Array)
    requires BlanksOk(store, plan) && h !in store.values && Empty(plan, sort, a)
    ensures BlanksOk(store.(values := store.values[h := a]), plan.(blank := plan.blank[h := sort]))
  {
  }

  lemma {:induction false} SameShape(original: map<string, Array>, plan: Plan, grown: Plan)
    requires Closed(plan) && Unshared(original, plan) && FullPaths(plan)
    requires grown.node == plan.node && grown.table == plan.table && grown.sorts == plan.sorts
    requires forall h | h in grown.blank && h !in plan.blank :: h !in original && forall l | l in plan.node :: plan.node[l] != h
    ensures Closed(grown) && Unshared(original, grown) && FullPaths(grown)
  {
  }

  /** Records depend on the plan only through what is stored right below them. */
  lemma {:induction false} RecordGrown(plan: Plan, grown: Plan, loc: Location, a: Array)
    requires RecordOk(plan, loc, a)
    requires loc.name in grown.sorts && grown.sorts[loc.name] == plan.sorts[loc.name]
    requires forall h | h in plan.blank :: h in grown.blank && grown.blank[h] == plan.blank[h]
    requires forall key :: Stored(grown, loc, key) == Stored(plan, loc, key)
    ensures RecordOk(grown, loc, a)
  {
    hide Strip, Spell, Depth, Stored;
  }

  /** A variable met for the first time starts with an empty array. */
  lemma {:induction false} GrowRoot(original: map<string, Array>, store: Tables, plan: Plan, name: string, sort: Sort, a: Array)
    requires Consistent(original, store, plan) && name !in plan.sorts && Empty(plan, sort, a)
    ensures Consistent(original, store.(arrays := store.arrays[name := a]), plan.(sorts := plan.sorts[name := sort]))
  {
    hide RecordOk, Empty, RootsOk, NodesOk, BlanksOk, Unshared, Kept, Closed;
    var next, grown := store.(arrays := store.arrays[name := a]), plan.(sorts := plan.sorts[name := sort]);
    NewRootRecord(store, plan, name, sort, a);
    NewRootOthers(store, plan, name, sort, a);
    RootsApart(original, store, next, plan, grown);
  }

  lemma {:induction false} RootsApart(original: map<string, Array>, store: Tables, next: Tables, plan: Plan, grown: Plan)
    requires BlanksOk(store, plan) && Closed(plan) && Unshared(original, plan) && Kept(original, store)
    requires next.values == store.values && grown.node == plan.node && grown.table == plan.table && grown.blank == plan.blank
    ensures BlanksOk(next, grown) && Closed(grown) && Unshared(original, grown) && Kept(original, next)
  {
    hide Empty;
    forall h | h in grown.blank ensures Empty(grown, grown.blank[h], next.values[h]) {
      EmptyGrown(plan, grown, plan.blank[h], store.values[h]);
    }
  }

  lemma {:induction false} NewRootRecord(store: Tables, plan: Plan, name: string, sort: Sort, a: Array)
    requires NodesOk(store, plan) && FullPaths(plan) && name !in plan.sorts && Empty(plan, sort, a)
    ensures RecordOk(plan.(sorts := plan.sorts[name := sort]), Location(name, []), a)
  {
    hide Spell, ScalarDefault;
    var grown := plan.(sorts := plan.sorts[name := sort]);
    forall key ensures Stored(grown, Location(name, []), key).None? {
      assert Child(Location(name, []), key).name == name;
    }
  }

  lemma {:induction false} NewRootOthers(store: Tables, plan: Plan, name: string, sort: Sort, a: Array)
    requires RootsOk(store, plan) && NodesOk(store, plan) && name !in plan.sorts
    requires RecordOk(plan.(sorts := plan.sorts[name := sort]), Location(name, []), a)
    ensures RootsOk(store.(arrays := store.arrays[name := a]), plan.(sorts := plan.sorts[name := sort]))
    ensures NodesOk(store.(arrays := store.arrays[name := a]), plan.(sorts := plan.sorts[name := sort]))
  {
    hide RecordOk;
    var next, grown := store.(arrays := store.arrays[name := a]), plan.(sorts := plan.sorts[name := sort]);
    forall other | other in plan.sorts ensures RecordOk(grown, Location(other, []), store.arrays[other]) {
      RecordUnder(plan, Location(other, []), store.arrays[other]);
      RecordGrown(plan, grown, Location(other, []), store.arrays[other]);
    }
    forall l | l in plan.node ensures RecordOk(grown, l, store.values[plan.node[l]]) {
      RecordUnder(plan, l, store.values[plan.node[l]]);
      RecordGrown(plan, grown, l, store.values[plan.node[l]]);
    }
  }

  /** Where a record is kept. */
  datatype Spot = Root(name: string) | Node(handle: string)

  predicate Exists(store: Tables, spot: Spot) {
    match spot
    case Root(name) => name in store.arrays
    case Node(handle) => handle in store.values
  }

  function Get(store: Tables, spot: Spot): Array
    requires Exists(store, spot)
  {
    match spot
    case Root(name) => store.arrays[name]
    case Node(handle) => store.values[handle]
  }

  function Put(store: Tables, spot: Spot, a: Array): Tables {
    match spot
    case Root(name) => store.(arrays := store.arrays[name := a])
    case Node(handle) => store.(values := store.values[handle := a])
  }

  ghost predicate Keeps(plan: Plan, loc: Location, spot: Spot) {
    loc.name in plan.sorts && if loc.path == [] then spot == Root(loc.name) else loc in plan.node && spot == Node(plan.node[loc])
  }

  ghost function Extended(plan: Plan, loc: Location, key: string, token: string): Plan
    requires loc.name in plan.sorts
  {
    if |loc.path| + 1 == Depth(plan.sorts[loc.name])
    then plan.(table := plan.table[Child(loc, key) := token])
    else plan.(node := plan.node[Child(loc, key) := token])
  }

  lemma {:induction false} StoredExtended(plan: Plan, loc: Location, key: string, token: string, other: Location, k: string)
    requires loc.name in plan.sorts && other.name in plan.sorts
    ensures Stored(Extended(plan, loc, key, token), other, k) ==
            if other == loc && k == key then Some(token) else Stored(plan, other, k)
  {
    hide Depth;
    if Child(other, k) == Child(loc, key) {
      assert other.path == Child(other, k).path[..|other.path|];
      assert loc.path == Child(loc, key).path[..|loc.path|];
      assert Child(other, k).path[|other.path|] == k;
    }
  }

  function Append(a: Array, key: string, token: string): Array {
    a.(entries := a.entries + [Entry(key, token)])
  }

  lemma {:induction false} RecordAppended(plan: Plan, loc: Location, a: Array, key: string, token: string)
    requires RecordOk(plan, loc, a) && Find(a.entries, key).None?
    ensures RecordOk(Extended(plan, loc, key, token), loc, Append(a, key, token))
  {
    hide Strip, Spell, Depth, Stored;
    forall k ensures Find(Append(a, key, token).entries, k) == Stored(Extended(plan, loc, key, token), loc, k) {
      FindAppended(a.entries, key, token, k);
      StoredExtended(plan, loc, key, token, loc, k);
    }
  }

  lemma {:induction false} RecordElsewhere(plan: Plan, loc: Location, key: string, token: string, other: Location, a: Array)
    requires loc.name in plan.sorts && RecordOk(plan, other, a) && other != loc
    ensures RecordOk(Extended(plan, loc, key, token), other, a)
  {
    hide Strip, Spell, Depth, Stored;
    forall k ensures Stored(Extended(plan, loc, key, token), other, k) == Stored(plan, other, k) {
      StoredExtended(plan, loc, key, token, other, k);
    }
    RecordGrown(plan, Extended(plan, loc, key, token), other, a);
  }

  lemma {:induction false} NodeBelowRoot(plan: Plan, l: Location)
    requires Closed(plan) && l in plan.node
    ensures l.path != []
  {
    assert Rooted(plan, l);
  }

  lemma {:induction false} EmptyGrown(plan: Plan, grown: Plan, sort: Sort, a: Array)
    requires Empty(plan, sort, a) && grown.blank == plan.blank
    ensures Empty(grown, sort, a)
  {
  }

  /** Everyone else's record, when one record gets a new entry. */
  lemma {:induction false} OthersKept(original: map<string, Array>, store: Tables, plan: Plan, loc: Location, spot: Spot, key: string, token: string, next: Tables)
    requires Consistent(original, store, plan) && Keeps(plan, loc, spot) && Exists(store, spot)
    requires RecordOk(plan, loc, Get(store, spot)) && Find(Get(store, spot).entries, key).None?
    requires next == Put(store, spot, Append(Get(store, spot), key, token))
    ensures RootsOk(next, Extended(plan, loc, key, token))
    ensures forall l | l in plan.node :: plan.node[l] in next.values && RecordOk(Extended(plan, loc, key, token), l, next.values[plan.node[l]])
    ensures BlanksOk(next, Extended(plan, loc, key, token)) && Kept(original, next)
  {
    hide RecordOk, HeaderOk, Closed, FullPaths, Depth;
    var a, grown := Get(store, spot), Extended(plan, loc, key, token);
    RecordAppended(plan, loc, a, key, token);
    forall name | name in grown.sorts ensures RecordOk(grown, Location(name, []), next.arrays[name]) {
      if Location(name, []) != loc {
        RecordElsewhere(plan, loc, key, token, Location(name, []), store.arrays[name]);
      }
    }
    forall l | l in plan.node ensures RecordOk(grown, l, next.values[plan.node[l]]) {
      if l != loc {
        RecordElsewhere(plan, loc, key, token, l, store.values[plan.node[l]]);
      } else {
        NodeBelowRoot(plan, l);
      }
    }
    forall h | h in plan.blank ensures Empty(grown, plan.blank[h], next.values[h]) {
      EmptyGrown(plan, grown, plan.blank[h], store.values[h]);
    }
  }

  lemma {:induction false} AtSpot(original: map<string, Array>, store: Tables, plan: Plan, loc: Location, spot: Spot)
    requires Consistent(original, store, plan) && Keeps(plan, loc, spot)
    ensures Exists(store, spot) && RecordOk(plan, loc, Get(store, spot))
  {
    hide RecordOk;
    assert loc.path == [] ==> loc == Location(loc.name, []);
  }

  lemma {:induction false} FindExact(plan: Plan, loc: Location, a: Array, key: string)
    requires RecordOk(plan, loc, a)
    ensures Find(a.entries, key) == Stored(plan, loc, key)
  {
  }

  /** Storing a scalar under a last index. */
  lemma {:induction false} GrowLeaf(original: map<string, Array>, store: Tables, plan: Plan, loc: Location, spot: Spot, key: string, value: string)
    requires Consistent(original, store, plan) && Keeps(plan, loc, spot) && Exists(store, spot)
    requires RecordOk(plan, loc, Get(store, spot)) && Find(Get(store, spot).entries, key).None?
    requires |loc.path| + 1 == Depth(plan.sorts[loc.name])
    ensures Consistent(original, Put(store, spot, Append(Get(store, spot), key, value)), plan.(table := plan.table[Child(loc, key) := value]))
  {
    hide RecordOk, RootsOk, NodesOk, BlanksOk, Unshared, Kept, Closed, FullPaths, Find;
    var grown := Extended(plan, loc, key, value);
    var next := Put(store, spot, Append(Get(store, spot), key, value));
    OthersKept(original, store, plan, loc, spot, key, value, next);
    ClosedBelow(plan, loc, key, value);
    AllNodes(next, plan, grown);
    SameTable(original, plan, grown, loc, key, value);
  }

  lemma {:induction false} AllNodes(store: Tables, plan: Plan, grown: Plan)
    requires grown.node == plan.node
    requires forall l | l in plan.node :: plan.node[l] in store.values && RecordOk(grown, l, store.values[plan.node[l]])
    ensures NodesOk(store, grown)
  {
  }

  lemma {:induction false} SameTable(original: map<string, Array>, plan: Plan, grown: Plan, loc: Location, key: string, value: string)
    requires Unshared(original, plan) && FullPaths(plan)
    requires loc.name in plan.sorts && |loc.path| + 1 == Depth(plan.sorts[loc.name])
    requires grown == plan.(table := plan.table[Child(loc, key) := value])
    ensures Unshared(original, grown) && FullPaths(grown)
  {
  }

  lemma {:induction false} ClosedBelow(plan: Plan, loc: Location, key: string, token: string)
    requires Closed(plan) && loc.name in plan.sorts && (loc.path == [] || loc in plan.node)
    ensures Closed(Extended(plan, loc, key, token))
  {
    hide Depth;
    var grown := Extended(plan, loc, key, token);
    forall l | l in grown.node ensures Rooted(grown, l) {
      assert l == Child(loc, key) || Rooted(plan, l);
    }
    forall l | l in grown.table ensures Rooted(grown, l) {
      assert l == Child(loc, key) || Rooted(plan, l);
    }
  }

  /** The new inner array has nothing stored below it. */
  lemma {:induction false} ChildRecord(plan: Plan, loc: Location, key: string, h: string, child: Array)
    requires Closed(plan) && loc.name in plan.sorts && |loc.path| + 1 < Depth(plan.sorts[loc.name])
    requires Stored(plan, loc, key).None? && Empty(plan, Strip(plan.sorts[loc.name], |loc.path| + 1), child)
    ensures RecordOk(Extended(plan, loc, key, h), Child(loc, key), child)
  {
    hide Depth, Strip, Spell, DefaultOk;
    var grown, inner := Extended(plan, loc, key, h), Child(loc, key);
    EmptyGrown(plan, grown, Strip(plan.sorts[loc.name], |loc.path| + 1), child);
    forall k ensures Stored(grown, inner, k).None? {
      StoredExtended(plan, loc, key, h, inner, k);
      assert inner != loc by { assert |inner.path| == |loc.path| + 1; }
      assert Stored(plan, inner, k).Some? ==> Rooted(plan, Child(inner, k));
    }
  }

  lemma {:induction false} RootsSame(store: Tables, next: Tables, plan: Plan)
    requires RootsOk(store, plan) && next.arrays == store.arrays
    ensures RootsOk(next, plan)
  {
  }

  lemma {:induction false} BlanksSame(store: Tables, next: Tables, plan: Plan, h: string)
    requires BlanksOk(store, plan) && h !in plan.blank
    requires forall k | k in store.values && k != h :: k in next.values && next.values[k] == store.values[k]
    ensures BlanksOk(next, plan)
  {
  }

  lemma {:induction false} KeptSame(original: map<string, Array>, store: Tables, next: Tables, h: string)
    requires Kept(original, store) && h !in original
    requires forall k | k in store.values && k != h :: k in next.values && next.values[k] == store.values[k]
    ensures Kept(original, next)
  {
  }

  /** A name that no array has yet is neither original, default nor inner. */
  lemma {:induction false} FreshHandle(original: map<string, Array>, store: Tables, plan: Plan, h: string)
    requires Kept(original, store) && BlanksOk(store, plan) && NodesOk(store, plan) && h !in store.values
    ensures h !in original && h !in plan.blank && forall l | l in plan.node :: plan.node[l] != h
  {
  }

  /** Opening an inner array under an index. */
  lemma {:induction false} GrowNode(original: map<string, Array>, store: Tables, plan: Plan, loc: Location, spot: Spot, key: string, h: string, child: Array)
    requires Consistent(original, store, plan) && Keeps(plan, loc, spot) && Exists(store, spot)
    requires RecordOk(plan, loc, Get(store, spot)) && Find(Get(store, spot).entries, key).None?
    requires |loc.path| + 1 < Depth(plan.sorts[loc.name])
    requires h !in store.values && Empty(plan, Strip(plan.sorts[loc.name], |loc.path| + 1), child)
    ensures var wider := store.(values := store.values[h := child]);
            var grown := plan.(node := plan.node[Child(loc, key) := h]);
            Consistent(original, Put(wider, spot, Append(Get(store, spot), key, h)), grown)
            && Keeps(grown, Child(loc, key), Node(h)) && RecordOk(grown, Child(loc, key), child)
  {
    hide RecordOk, RootsOk, NodesOk, BlanksOk, Unshared, Kept, Closed, FullPaths, Find, Empty;
    var grown := Extended(plan, loc, key, h);
    var next := Put(store, spot, Append(Get(store, spot), key, h));
    var final := Put(store.(values := store.values[h := child]), spot, Append(Get(store, spot), key, h));
    OthersKept(original, store, plan, loc, spot, key, h, next);
    ClosedBelow(plan, loc, key, h);
    FindExact(plan, loc, Get(store, spot), key);
    ChildRecord(plan, loc, key, h, child);
    FreshHandle(original, store, plan, h);
    assert final.values == next.values[h := child] && final.arrays == next.arrays;
    RootsSame(next, final, grown);
    BlanksSame(next, final, grown, h);
    KeptSame(original, next, final, h);
    NodesMore(next, final, plan, grown, Child(loc, key), h);
    UnsharedMore(original, plan, grown, Child(loc, key), h);
  }

  lemma {:induction false} NodesMore(store: Tables, next: Tables, plan: Plan, grown: Plan, l: Location, h: string)
    requires grown.node == plan.node[l := h] && h in next.values && RecordOk(grown, l, next.values[h])
    requires forall m | m in plan.node :: plan.node[m] in store.values && RecordOk(grown, m, store.values[plan.node[m]])
    requires forall k | k in store.values && k != h :: k in next.values && next.values[k] == store.values[k]
    requires forall m | m in plan.node :: plan.node[m] != h
    ensures NodesOk(next, grown)
  {
  }

  lemma {:induction false} UnsharedMore(original: map<string, Array>, plan: Plan, grown: Plan, l: Location, h: string)
    requires Unshared(original, plan) && FullPaths(plan)
    requires grown == plan.(node := plan.node[l := h]) && h !in original && h !in plan.blank
    requires forall m | m in plan.node :: plan.node[m] != h
    ensures Unshared(original, grown) && FullPaths(grown)
  {
  }

  /** Nothing else is stored at the path. */
  predicate Agrees(table: map<Location, string>, loc: Location, value: string) {
    loc in table ==> table[loc] == value
  }

  lemma {:induction false} DepthOfArray(sort: Sort)
    ensures Depth(sort) > 0 <==> sort.ArraySort?
  {
  }
}
