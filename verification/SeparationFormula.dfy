/** Validation and preparation of spatial formulas: widths, reachability, the
    mentioned vocabulary with one fresh record, and fresh addresses. */
module SeparationFormula {
  import opened Basics
  import opened SeparationLogic
  import opened SeparationStabilisation

  datatype Prepared = Prepared(formula: Formula, width: seq<nat>, reachable: seq<bool>, symbols: set<nat>)
  datatype Vocabulary = Vocabulary(addresses: seq<nat>, records: seq<Record>)

  ghost predicate Faithful(p: Prepared) {
    && WellFormed(p.formula)
    && |p.width| == |p.reachable| == |p.formula.nodes|
    && (forall i: nat | i < |p.width| :: p.width[i] == Width(p.formula, i))
    && (forall i: nat | i < |p.reachable| :: p.reachable[i] == Reaches(p.formula, p.formula.root, i))
    && (forall x: nat :: x in p.symbols <==> Symbolic(p.formula, x))
  }

  /** The first loop: node checks, widths and the depth limit. */
  method Widths(f: Formula, work: Work) returns (r: Outcome<seq<nat>>)
    requires work.Valid()
    modifies work
    ensures work.Valid() && work.steps >= old(work.steps)
    ensures r.Done? ==> (forall i: nat | i < |f.nodes| :: NodeFits(f, i))
    ensures r.Done? && f.root < |f.nodes| ==>
              |r.value| == |f.nodes| && forall i: nat | i < |f.nodes| :: r.value[i] == Width(f, i)
    ensures r.Stop? && r.reason == Malformed ==> !WellFormed(f)
    ensures r.Stop? && r.reason == Exhausted ==> work.halted
    ensures r.Stop? && WellFormed(f) && r.reason == TooDeep ==> exists i: nat :: i < |f.nodes| && Depth(f, i) > work.maxDepth
    ensures r.Stop? && WellFormed(f) && r.reason == Overflow ==> exists i: nat :: i < |f.nodes| && Width(f, i) > UINT64_MAX
  {
    var width: seq<nat> := [];
    var depths: seq<nat> := [];
    for i := 0 to |f.nodes|
      invariant work.Valid() && work.steps >= old(work.steps)
      invariant |width| == |depths| == i
      invariant forall j: nat | j < i :: NodeFits(f, j)
      invariant WellFormed(f) ==> forall j: nat | j < i :: width[j] == Width(f, j) && depths[j] == Depth(f, j)
    {
      :- work.Tick(1);
      var n := f.nodes[i];
      if n.kind.PointsTo? {
        :- work.Tick(|n.kind.fields|);
        if !FieldsFit(f.fieldSorts, n.kind.fields) {
          assert !NodeFits(f, i);
          return Stop(Malformed);
        }
      }
      if |n.children| != Arity(n.kind) || exists k :: 0 <= k < |n.children| && n.children[k] >= i {
        assert !NodeFits(f, i);
        return Stop(Malformed);
      }
      assert NodeFits(f, i);
      var c := n.children;
      var depth := 1 + match |c| case 0 => 0 case 1 => depths[c[0]] case _ => Max(depths[c[0]], depths[c[1]]);
      assert WellFormed(f) ==> depth == Depth(f, i);
      if depth > work.maxDepth {
        return Stop(TooDeep);
      }
      var w := match n.kind
        case Boolean(_) => 0
        case Relation(_, _, _) => 0
        case Emp => 1
        case PointsTo(_, _) => 1
        case Not => width[c[0]]
        case And => Max(width[c[0]], width[c[1]])
        case Or => Max(width[c[0]], width[c[1]])
        case Star => width[c[0]] + width[c[1]]
        case Wand => width[c[1]];
      assert WellFormed(f) ==> w == Width(f, i);
      if n.kind.Star? && w > UINT64_MAX {
        return Stop(Overflow);
      }
      width, depths := width + [w], depths + [depth];
    }
    return Done(width);
  }

  method Mark(reachable: seq<bool>, ids: seq<nat>) returns (marked: seq<bool>)
    requires forall k | 0 <= k < |ids| :: ids[k] < |reachable|
    ensures |marked| == |reachable|
    ensures forall j: nat | j < |marked| :: marked[j] == (reachable[j] || j in ids)
  {
    marked := reachable;
    for k := 0 to |ids|
      invariant |marked| == |reachable|
      invariant forall j: nat | j < |marked| :: marked[j] == (reachable[j] || j in ids[..k])
    {
      marked := marked[ids[k] := true];
    }
    assert ids[..|ids|] == ids;
  }

  /** After the sweep has come down to `i`: no node is marked wrongly, every reached
      node from `i` on is marked, and so are the children of those. */
  ghost predicate Swept(f: Formula, i: nat, reachable: seq<bool>)
    requires WellFormed(f)
  {
    && |reachable| == |f.nodes| && reachable[f.root]
    && (forall j: nat | j < |f.nodes| && reachable[j] :: Reaches(f, f.root, j))
    && (forall j: nat | i <= j < |f.nodes| && Reaches(f, f.root, j) :: reachable[j])
    && (forall p: nat, c: nat | i <= p < |f.nodes| && reachable[p] && c < |f.nodes| && c in f.nodes[p].children :: reachable[c])
  }

  lemma {:induction false} SweepStep(f: Formula, i: nat, before: seq<bool>, after: seq<bool>)
    requires WellFormed(f) && i < |f.nodes| && Swept(f, i + 1, before) && |after| == |before|
    requires forall j: nat | j < |after| :: after[j] == (before[j] || (before[i] && j in f.nodes[i].children))
    ensures Swept(f, i, after)
  {
    assert NodeFits(f, i);
    var c := f.nodes[i].children;
    if Reaches(f, f.root, i) && i != f.root {
      var p := ReachesParent(f, f.root, i);
    }
    forall j: nat | j < |f.nodes| && after[j] ensures Reaches(f, f.root, j) {
      if !before[j] {
        var k :| 0 <= k < |c| && c[k] == j;
        ReachesChild(f, f.root, i, k);
      }
    }
    forall p: nat, d: nat | i <= p < |f.nodes| && after[p] && d < |f.nodes| && d in f.nodes[p].children
      ensures after[d]
    {
      assert NodeFits(f, p);
    }
  }

  /** Marking parents before children marks exactly the nodes below the root. */
  method Sweep(f: Formula) returns (reachable: seq<bool>, symbols: set<nat>)
    requires WellFormed(f)
    ensures |reachable| == |f.nodes|
    ensures forall i: nat | i < |f.nodes| :: reachable[i] == Reaches(f, f.root, i)
    ensures forall x: nat :: x in symbols <==> Symbolic(f, x)
  {
    reachable := seq(|f.nodes|, i => i == f.root);
    symbols := {0};
    var i: nat := f.root + 1;
    ReachesDown(f, f.root);
    while i > 0
      invariant i <= |f.nodes| && Swept(f, i, reachable)
      invariant forall x: nat :: x in symbols <==>
                  x == 0 || exists j: nat :: i <= j < |f.nodes| && Reaches(f, f.root, j) && x in Mentions(f.nodes[j].kind)
    {
      i := i - 1;
      ghost var before := reachable;
      if reachable[i] {
        assert NodeFits(f, i);
        reachable := Mark(reachable, f.nodes[i].children);
        symbols := symbols + Mentions(f.nodes[i].kind);
      }
      SweepStep(f, i, before, reachable);
    }
  }

  lemma {:induction false} ReachesDown(f: Formula, a: nat)
    requires WellFormed(f) && a < |f.nodes|
    ensures forall j: nat | a < j :: !Reaches(f, a, j)
    decreases a
  {
    assert NodeFits(f, a);
    var c := f.nodes[a].children;
    forall k | 0 <= k < |c| ensures forall j: nat | a < j :: !Reaches(f, c[k], j) {
      ReachesDown(f, c[k]);
    }
  }

  method Prepare(f: Formula, work: Work) returns (r: Outcome<Prepared>)
    requires work.Valid()
    modifies work
    ensures work.Valid() && work.steps >= old(work.steps)
    ensures r.Done? ==> Faithful(r.value) && r.value.formula == f
    ensures r.Stop? && r.reason == Malformed ==> !WellFormed(f)
    ensures r.Stop? && r.reason == Exhausted ==> work.halted
    ensures r.Stop? && WellFormed(f) && r.reason == TooDeep ==> exists i: nat :: i < |f.nodes| && Depth(f, i) > work.maxDepth
    ensures r.Stop? && WellFormed(f) && r.reason == Overflow ==> exists i: nat :: i < |f.nodes| && Width(f, i) > UINT64_MAX
  {
    if f.root >= |f.nodes| {
      return Stop(Malformed);
    }
    :- work.Tick(|f.nodes|);
    var width :- Widths(f, work);
    var reachable, symbols := Sweep(f);
    return Done(Prepared(f, width, reachable, symbols));
  }

  /** The addresses and records that atoms below the root can mention. */
  ghost function MentionedAddresses(f: Formula, stack: Stack): iset<nat>
    requires WellFormed(f)
  {
    iset x: nat | Symbolic(f, x) && At(stack, x) != 0 :: At(stack, x)
  }

  ghost function MentionedRecords(f: Formula, stack: Stack): set<Record>
    requires WellFormed(f)
  {
    set i: nat | i < |f.nodes| && Reaches(f, f.root, i) && f.nodes[i].kind.PointsTo? ::
      Instantiate(f.nodes[i].kind.fields, stack)
  }

  /** What the wand enumeration needs: exact addresses, and a representative of every record class. */
  ghost predicate Adequate(f: Formula, stack: Stack, v: Vocabulary)
    requires WellFormed(f)
  {
    && Distinct(v.addresses)
    && (forall a: nat :: a in v.addresses <==> a in MentionedAddresses(f, stack))
    && |v.records| > 0
    && (forall k | 0 <= k < |v.records| :: RecordFits(f.fieldSorts, v.records[k]))
    && (forall r: Record | RecordFits(f.fieldSorts, r) ::
          exists k :: 0 <= k < |v.records| && SameClass(MentionedRecords(f, stack), v.records[k], r))
  }

  method Addresses(p: Prepared, stack: Stack, work: Work) returns (r: Outcome<set<nat>>)
    requires Faithful(p) && work.Valid()
    modifies work
    ensures work.Valid() && work.steps >= old(work.steps)
    ensures r.Done? ==> p.symbols <= stack.Keys && At(stack, 0) == 0
    ensures r.Done? ==> forall a: nat :: a in r.value <==> a in MentionedAddresses(p.formula, stack)
    ensures r.Done? ==> |r.value| <= |stack|
    ensures r.Stop? ==> (r.reason == Malformed && !(p.symbols <= stack.Keys && At(stack, 0) == 0)) || (r.reason == Exhausted && work.halted)
  {
    var addresses: set<nat> := {};
    var rest := p.symbols;
    while rest != {}
      invariant work.Valid() && work.steps >= old(work.steps) && rest <= p.symbols
      invariant forall x | x in p.symbols - rest :: x in stack && (x == 0 ==> stack[x] == 0)
      invariant addresses == set x | x in p.symbols - rest && At(stack, x) != 0 :: At(stack, x)
    {
      var x :| x in rest;
      :- work.Tick(1);
      if x !in stack || (x == 0 && stack[x] != 0) {
        return Stop(Malformed);
      }
      assert p.symbols - (rest - {x}) == (p.symbols - rest) + {x};
      addresses := addresses + if stack[x] != 0 then {stack[x]} else {};
      rest := rest - {x};
    }
    ValuesCounted(stack, addresses);
    return Done(addresses);
  }

  lemma {:induction false} ValuesCounted(stack: Stack, values: set<nat>)
    requires forall a | a in values :: exists x :: x in stack && stack[x] == a
    ensures |values| <= |stack|
    decreases |stack|
  {
    if values != {} {
      var a :| a in values;
      var x :| x in stack && stack[x] == a;
      forall b | b in values - {a} ensures exists y :: y in stack - {x} && (stack - {x})[y] == b {
        var y :| y in stack && stack[y] == b;
        assert y in stack - {x} && (stack - {x})[y] == b;
      }
      assert (stack - {x}).Keys == stack.Keys - {x};
      ValuesCounted(stack - {x}, values - {a});
    }
  }

  method Records(p: Prepared, stack: Stack, work: Work) returns (r: Outcome<set<Record>>)
    requires Faithful(p) && work.Valid()
    modifies work
    ensures work.Valid() && work.steps >= old(work.steps)
    ensures r.Done? ==> r.value == MentionedRecords(p.formula, stack)
    ensures r.Stop? ==> r.reason == Exhausted && work.halted
  {
    var f := p.formula;
    var records: set<Record> := {};
    for i := 0 to |f.nodes|
      invariant work.Valid() && work.steps >= old(work.steps)
      invariant records == set j: nat | j < i && Reaches(f, f.root, j) && f.nodes[j].kind.PointsTo? ::
                             Instantiate(f.nodes[j].kind.fields, stack)
    {
      if p.reachable[i] {
        :- work.Tick(1);
        if f.nodes[i].kind.PointsTo? {
          records := records + {Instantiate(f.nodes[i].kind.fields, stack)};
        }
      }
    }
    return Done(records);
  }

  function Zero(sort: FieldSort): Value {
    if sort.LocationSort? then Address(0) else Number(0)
  }

  /** The candidates in the order they are tried. */
  ghost function Candidate(sorts: seq<FieldSort>, c: nat): Record
    requires sorts != []
  {
    seq(|sorts|, j requires 0 <= j < |sorts| => if j > 0 then Zero(sorts[j]) else if sorts[0].LocationSort? then Address(c) else Number(c))
  }

  lemma {:induction false} CandidatesCounted(sorts: seq<FieldSort>, records: set<Record>, n: nat)
    requires sorts != [] && forall c: nat | c < n :: Candidate(sorts, c) in records
    ensures |records| >= n
    decreases n
  {
    if n > 0 {
      var last := Candidate(sorts, n - 1);
      forall c: nat | c < n - 1 ensures Candidate(sorts, c) in records - {last} {
        assert Candidate(sorts, c)[0] != last[0];
      }
      CandidatesCounted(sorts, records - {last}, n - 1);
    }
  }

  /** The record standing for every unmentioned one: the first candidate not yet taken. */
  method Other(sorts: seq<FieldSort>, records: set<Record>, work: Work) returns (r: Outcome<Record>)
    requires work.Valid()
    modifies work
    ensures work.Valid() && work.steps >= old(work.steps)
    ensures r.Done? ==> RecordFits(sorts, r.value) && (sorts != [] ==> r.value !in records)
    ensures r.Stop? ==> (r.reason == Exhausted && work.halted) || (r.reason == Overflow && |records| > UINT64_MAX)
  {
    var other: Record := seq(|sorts|, j requires 0 <= j < |sorts| => Zero(sorts[j]));
    if other != [] {
      var candidate: nat := 0;
      while other in records
        invariant work.Valid() && work.steps >= old(work.steps)
        invariant RecordFits(sorts, other) && candidate <= UINT64_MAX
        invariant other == Candidate(sorts, candidate) && forall c: nat | c < candidate :: Candidate(sorts, c) in records
        decreases UINT64_MAX - candidate
      {
        :- work.Tick(1);
        if candidate == UINT64_MAX {
          CandidatesCounted(sorts, records, UINT64_MAX + 1);
          return Stop(Overflow);
        }
        candidate := candidate + 1;
        other := other[0 := if sorts[0].LocationSort? then Address(candidate) else Number(candidate)];
      }
    }
    return Done(other);
  }

  method BuildVocabulary(p: Prepared, stack: Stack, work: Work) returns (r: Outcome<Vocabulary>)
    requires Faithful(p) && work.Valid()
    modifies work
    ensures work.Valid() && work.steps >= old(work.steps)
    ensures r.Done? ==> p.symbols <= stack.Keys && At(stack, 0) == 0 && Adequate(p.formula, stack, r.value)
    ensures r.Done? ==> |r.value.addresses| <= |stack|
    ensures r.Stop? ==>
              || (r.reason == Malformed && !(p.symbols <= stack.Keys && At(stack, 0) == 0))
              || (r.reason == Exhausted && work.halted)
              || (r.reason == Overflow && |MentionedRecords(p.formula, stack)| > UINT64_MAX)
  {
    var addresses :- Addresses(p, stack, work);
    var mentioned :- Records(p, stack, work);
    var other :- Other(p.formula.fieldSorts, mentioned, work);
    var addressList := Listing(addresses);
    var recordList := Listing(mentioned + {other});
    assert Adequate(p.formula, stack, Vocabulary(addressList, recordList)) by {
      RepresentsAll(p.formula, stack, other, recordList);
    }
    return Done(Vocabulary(addressList, recordList));
  }

  /** Mentioned records stand for themselves and the fresh one for all others;
      the empty signature has a single record. */
  lemma {:induction false} RepresentsAll(f: Formula, stack: Stack, other: Record, list: seq<Record>)
    requires WellFormed(f)
    requires forall r :: r in list <==> r in MentionedRecords(f, stack) + {other}
    requires RecordFits(f.fieldSorts, other)
    requires f.fieldSorts != [] ==> other !in MentionedRecords(f, stack)
    ensures |list| > 0
    ensures forall k | 0 <= k < |list| :: RecordFits(f.fieldSorts, list[k])
    ensures forall r: Record | RecordFits(f.fieldSorts, r) ::
              exists k :: 0 <= k < |list| && SameClass(MentionedRecords(f, stack), list[k], r)
  {
    assert other in list;
    forall k | 0 <= k < |list| ensures RecordFits(f.fieldSorts, list[k]) {
      assert list[k] in list;
      if list[k] != other {
        var i: nat :| i < |f.nodes| && Reaches(f, f.root, i) && f.nodes[i].kind.PointsTo?
                      && list[k] == Instantiate(f.nodes[i].kind.fields, stack);
        assert NodeFits(f, i);
      }
    }
    forall r: Record | RecordFits(f.fieldSorts, r)
      ensures exists k :: 0 <= k < |list| && SameClass(MentionedRecords(f, stack), list[k], r)
    {
      var s := if r in list then r else other;
      var k :| 0 <= k < |list| && list[k] == s;
      if f.fieldSorts == [] {
        assert r == other == [];
      }
      assert SameClass(MentionedRecords(f, stack), list[k], r);
    }
  }

  lemma {:induction false} CoversReached(f: Formula, stack: Stack, addresses: set<nat>, id: nat)
    requires WellFormed(f) && id < |f.nodes| && Reaches(f, f.root, id)
    requires forall x: nat | Symbolic(f, x) :: x in stack
    requires forall a: nat | a in MentionedAddresses(f, stack) :: a in addresses
    ensures Covers(f, stack, addresses, MentionedRecords(f, stack), id)
    decreases id
  {
    assert NodeFits(f, id);
    var n := f.nodes[id];
    forall x | x in Mentions(n.kind) ensures x in stack {
      assert Symbolic(f, x);
    }
    if n.kind.PointsTo? {
      assert n.kind.cell in Mentions(n.kind);
      assert Symbolic(f, n.kind.cell);
    }
    forall k | 0 <= k < |n.children|
      ensures Covers(f, stack, addresses, MentionedRecords(f, stack), n.children[k])
    {
      ReachesChild(f, f.root, id, k);
      CoversReached(f, stack, addresses, n.children[k]);
    }
  }

  /** Check the model's heap against the signature; literals are already canonical. */
  method CanonicalHeap(f: Formula, heap: Heap, work: Work) returns (r: Outcome<Heap>)
    requires work.Valid()
    modifies work
    ensures work.Valid() && work.steps >= old(work.steps)
    ensures r.Done? ==> r.value == heap && Typed(f.fieldSorts, heap)
    ensures r.Stop? ==> (r.reason == Malformed && !Typed(f.fieldSorts, heap)) || (r.reason == Exhausted && work.halted)
  {
    var rest := heap.Keys;
    :- work.Tick(|heap|);
    while rest != {}
      invariant work.Valid() && work.steps >= old(work.steps) && rest <= heap.Keys
      invariant forall a | a in heap.Keys - rest :: a != 0 && RecordFits(f.fieldSorts, heap[a])
    {
      var a :| a in rest;
      :- work.Tick(1);
      if a == 0 || !RecordFits(f.fieldSorts, heap[a]) {
        return Stop(Malformed);
      }
      :- work.Tick(|heap[a]|);
      rest := rest - {a};
    }
    return Done(heap);
  }

  lemma {:induction false} AllTaken(heap: Heap, addresses: seq<nat>, result: seq<nat>, n: nat)
    requires forall a | 0 < a <= n :: a in heap || a in addresses || a in result
    ensures |heap| + |addresses| + |result| >= n
  {
    var all := addresses + result;
    ListCounted(all);
    UnionCounted(heap.Keys, Members(all));
    RangeCounted(n, heap.Keys + Members(all));
  }

  ghost function Members(s: seq<nat>): set<nat> { set a | a in s }

  lemma {:induction false} UnionCounted(a: set<nat>, b: set<nat>)
    ensures |a + b| <= |a| + |b|
  {
    assert a + b == a + (b - a);
    assert b == (b - a) + (b * a);
  }

  lemma {:induction false} ListCounted(s: seq<nat>)
    ensures |Members(s)| <= |s|
  {
    if s != [] {
      var front, last := s[..|s| - 1], s[|s| - 1];
      ListCounted(front);
      assert s == front + [last];
      assert Members(s) == Members(front) + {last};
      UnionCounted(Members(front), {last});
    }
  }

  lemma {:induction false} RangeCounted(n: nat, s: set<nat>)
    requires forall a | 0 < a <= n :: a in s
    ensures |s| >= n
    decreases n
  {
    if n > 0 {
      RangeCounted(n - 1, s - {n});
    }
  }

  /** The first `count` positive addresses outside the vocabulary and the heap. */
  method FreshAddresses(v: Vocabulary, heap: Heap, count: nat, work: Work) returns (r: Outcome<seq<nat>>)
    requires work.Valid()
    modifies work
    ensures work.Valid() && work.steps >= old(work.steps)
    ensures r.Done? ==> |r.value| == count && Distinct(r.value)
    ensures r.Done? ==> forall a | a in r.value :: a != 0 && a !in heap && a !in v.addresses
    ensures r.Stop? ==>
              (r.reason == Exhausted && work.halted) || (r.reason == Overflow && |heap| + |v.addresses| + count >= UINT64_MAX)
  {
    var result: seq<nat> := [];
    var next: nat := 0;
    while |result| < count
      invariant work.Valid() && work.steps >= old(work.steps)
      invariant |result| <= count && Distinct(result) && next <= UINT64_MAX
      invariant forall a | a in result :: 0 < a <= next && a !in heap && a !in v.addresses
      invariant forall a | 0 < a <= next :: a in heap || a in v.addresses || a in result
      decreases UINT64_MAX - next
    {
      :- work.Tick(1);
      if next == UINT64_MAX {
        AllTaken(heap, v.addresses, result, next);
        return Stop(Overflow);
      }
      next := next + 1;
      if next !in heap && next !in v.addresses {
        result := result + [next];
      }
    }
    return Done(result);
  }
}
