/** Reverse uses of the DAG below a mutable set of root slots, kept by reference counts. */
module ActiveTermUses {
  import opened Basics
  import opened Terms

  function Count(xs: seq<nat>, x: nat): nat {
    if xs == [] then 0 else (if xs[|xs| - 1] == x then 1 else 0) + Count(xs[..|xs| - 1], x)
  }

  lemma {:induction false} CountAppend(xs: seq<nat>, ys: seq<nat>, x: nat)
    ensures Count(xs + ys, x) == Count(xs, x) + Count(ys, x)
  {
    if ys == [] {
      assert xs + ys == xs;
    } else {
      assert (xs + ys)[..|xs + ys| - 1] == xs + ys[..|ys| - 1];
      CountAppend(xs, ys[..|ys| - 1], x);
    }
  }

  lemma {:induction false} CountPositive(xs: seq<nat>, x: nat)
    ensures Count(xs, x) > 0 <==> x in xs
  {
    if xs != [] {
      CountPositive(xs[..|xs| - 1], x);
      assert xs == xs[..|xs| - 1] + [xs[|xs| - 1]];
    }
  }

  /** Slots that hold a term. */
  function Slots(roots: seq<Option<nat>>, x: nat): nat {
    if roots == [] then 0 else
    (if roots[|roots| - 1] == Some(x) then 1 else 0) + Slots(roots[..|roots| - 1], x)
  }

  lemma {:induction false} SlotsPositive(roots: seq<Option<nat>>, x: nat)
    ensures Slots(roots, x) > 0 <==> Some(x) in roots
  {
    if roots != [] {
      SlotsPositive(roots[..|roots| - 1], x);
      assert roots == roots[..|roots| - 1] + [roots[|roots| - 1]];
    }
  }

  lemma {:induction false} SlotsUpdate(roots: seq<Option<nat>>, s: nat, r: Option<nat>, x: nat)
    requires s < |roots|
    ensures Slots(roots[s := r], x) + (if roots[s] == Some(x) then 1 else 0) ==
            Slots(roots, x) + (if r == Some(x) then 1 else 0)
  {
    var n := |roots| - 1;
    if s == n {
      assert roots[s := r][..n] == roots[..n];
    } else {
      assert roots[s := r][..n] == roots[..n][s := r];
      SlotsUpdate(roots[..n], s, r, x);
    }
  }

  lemma {:induction false} SlotsPadded(roots: seq<Option<nat>>, k: nat, x: nat)
    ensures Slots(roots + seq(k, _ => None), x) == Slots(roots, x)
  {
    if k == 0 {
      assert roots + seq(k, _ => None) == roots;
    } else {
      var padded := roots + seq(k, _ => None);
      assert padded[..|padded| - 1] == roots + seq(k - 1, _ => None);
      SlotsPadded(roots, k - 1, x);
    }
  }

  /** Uses of a term by the active terms below `n`, with multiplicity. */
  function Demand(ir: Dag, active: set<nat>, n: nat, x: nat): nat
    requires n <= |ir|
  {
    if n == 0 then 0 else
    Demand(ir, active, n - 1, x) + if n - 1 in active then Count(ir[n - 1].children, x) else 0
  }

  lemma {:induction false} DemandGrows(ir: Dag, active: set<nat>, id: nat, n: nat, x: nat)
    requires n <= |ir| && id < |ir| && id !in active
    ensures Demand(ir, active + {id}, n, x) == Demand(ir, active, n, x) + if id < n then Count(ir[id].children, x) else 0
  {
    if n > 0 {
      DemandGrows(ir, active, id, n - 1, x);
    }
  }

  lemma {:induction false} DemandPositive(ir: Dag, active: set<nat>, n: nat, x: nat)
    requires n <= |ir|
    ensures Demand(ir, active, n, x) > 0 <==> exists p: nat :: p < n && p in active && x in ir[p].children
  {
    if n > 0 {
      DemandPositive(ir, active, n - 1, x);
      CountPositive(ir[n - 1].children, x);
    }
  }

  /** `from` is `to` or lies above it. */
  ghost predicate Reaches(ir: Dag, from: nat, to: nat)
    requires Ordered(ir)
    decreases from
  {
    from == to || (from < |ir| && exists k :: 0 <= k < |ir[from].children| && Reaches(ir, ir[from].children[k], to))
  }

  lemma {:induction false} ReachesTrans(ir: Dag, a: nat, b: nat, c: nat)
    requires Ordered(ir) && Reaches(ir, a, b) && Reaches(ir, b, c)
    ensures Reaches(ir, a, c)
    decreases a
  {
    if a != b {
      var k :| 0 <= k < |ir[a].children| && Reaches(ir, ir[a].children[k], b);
      ReachesTrans(ir, ir[a].children[k], b, c);
    }
  }

  function Refs(references: seq<nat>, x: nat): nat {
    if x < |references| then references[x] else 0
  }

  function Active(references: seq<nat>): set<nat> {
    set x | 0 <= x < |references| && references[x] > 0
  }

  /** A count plus its pending increments equals its root slots, its active uses and
      the holds that are owed a release. */
  ghost predicate AccountedAt(ir: Dag, roots: seq<Option<nat>>, references: seq<nat>, pending: seq<nat>, owed: seq<nat>, x: nat) {
    Refs(references, x) + Count(pending, x) ==
    Slots(roots, x) + Demand(ir, Active(references), |ir|, x) + Count(owed, x)
  }

  ghost predicate Accounted(ir: Dag, roots: seq<Option<nat>>, references: seq<nat>, pending: seq<nat>, owed: seq<nat>) {
    forall x: nat {:trigger AccountedAt(ir, roots, references, pending, owed, x)} ::
      AccountedAt(ir, roots, references, pending, owed, x)
  }

  /** A current root lies at or above the term. */
  ghost predicate Rooted(ir: Dag, roots: seq<Option<nat>>, x: nat)
    requires Ordered(ir)
  {
    exists r: nat :: Some(r) in roots && Reaches(ir, r, x)
  }

  lemma {:induction false} ActiveBelow(ir: Dag, roots: seq<Option<nat>>, references: seq<nat>, r: nat, x: nat)
    requires Ordered(ir) && |references| <= |ir| && Accounted(ir, roots, references, [], [])
    requires r in Active(references) && Reaches(ir, r, x)
    ensures x in Active(references)
    decreases r
  {
    if r != x {
      var k :| 0 <= k < |ir[r].children| && Reaches(ir, ir[r].children[k], x);
      var c := ir[r].children[k];
      DemandPositive(ir, Active(references), |ir|, c);
      assert AccountedAt(ir, roots, references, [], [], c);
      ActiveBelow(ir, roots, references, c, x);
    }
  }

  lemma {:induction false} ActiveIsRooted(ir: Dag, roots: seq<Option<nat>>, references: seq<nat>, x: nat)
    requires Ordered(ir) && |references| <= |ir| && Accounted(ir, roots, references, [], [])
    requires x in Active(references)
    ensures Rooted(ir, roots, x)
    decreases |ir| - x
  {
    assert AccountedAt(ir, roots, references, [], [], x);
    if Slots(roots, x) > 0 {
      SlotsPositive(roots, x);
      assert Reaches(ir, x, x);
    } else {
      DemandPositive(ir, Active(references), |ir|, x);
      var p: nat :| p < |ir| && p in Active(references) && x in ir[p].children;
      ActiveIsRooted(ir, roots, references, p);
      var r: nat :| Some(r) in roots && Reaches(ir, r, p);
      ReachesTrans(ir, r, p, x);
    }
  }

  /** Reference counting agrees with reachability from the current roots. */
  lemma {:induction false} ActiveIffRooted(ir: Dag, roots: seq<Option<nat>>, references: seq<nat>, x: nat)
    requires Ordered(ir) && |references| <= |ir| && Accounted(ir, roots, references, [], [])
    ensures Refs(references, x) > 0 <==> Rooted(ir, roots, x)
  {
    if Refs(references, x) > 0 {
      ActiveIsRooted(ir, roots, references, x);
    }
    if Rooted(ir, roots, x) {
      var r: nat :| Some(r) in roots && Reaches(ir, r, x);
      SlotsPositive(roots, r);
      assert AccountedAt(ir, roots, references, [], [], r);
      ActiveBelow(ir, roots, references, r, x);
    }
  }

  lemma {:induction false} CountOne(x: nat, y: nat)
    ensures Count([x], y) == if x == y then 1 else 0
  {
    assert [x][..0] == [];
  }

  /** One pop of the retain loop. */
  lemma {:induction false} RetainStep(ir: Dag, roots: seq<Option<nat>>, references: seq<nat>, pending: seq<nat>, owed: seq<nat>, id: nat, next: seq<nat>)
    requires |references| <= |ir| && |next| <= |ir| && id < |next|
    requires Accounted(ir, roots, references, pending + [id], owed)
    requires Refs(next, id) == Refs(references, id) + 1
    requires forall x: nat | x != id :: Refs(next, x) == Refs(references, x)
    ensures Accounted(ir, roots, next, if Refs(references, id) == 0 then pending + ir[id].children else pending, owed)
    ensures Active(next) == Active(references) + {id}
  {
    var fresher := if Refs(references, id) == 0 then pending + ir[id].children else pending;
    forall x: nat ensures x in Active(next) <==> x in Active(references) + {id} {
      assert x in Active(next) <==> Refs(next, x) > 0;
      assert x in Active(references) <==> Refs(references, x) > 0;
    }
    assert Active(next) == Active(references) + {id};
    forall x: nat ensures AccountedAt(ir, roots, next, fresher, owed, x) {
      assert AccountedAt(ir, roots, references, pending + [id], owed, x);
      CountAppend(pending, [id], x);
      CountOne(id, x);
      if Refs(references, id) == 0 {
        CountAppend(pending, ir[id].children, x);
        DemandGrows(ir, Active(references), id, |ir|, x);
      } else {
        assert Active(next) == Active(references);
      }
    }
  }

  /** One pop of the release loop; the popped term is certainly counted. */
  lemma {:induction false} ReleaseStep(ir: Dag, roots: seq<Option<nat>>, references: seq<nat>, owed: seq<nat>, id: nat)
    requires |references| <= |ir| && Accounted(ir, roots, references, [], owed + [id])
    ensures id < |references| && references[id] > 0
    ensures var next := references[id := references[id] - 1];
            && Accounted(ir, roots, next, [], if next[id] == 0 then owed + ir[id].children else owed)
            && Active(next) == if next[id] == 0 then Active(references) - {id} else Active(references)
  {
    assert AccountedAt(ir, roots, references, [], owed + [id], id);
    CountAppend(owed, [id], id);
    CountOne(id, id);
    var next := references[id := references[id] - 1];
    var later := if next[id] == 0 then owed + ir[id].children else owed;
    assert Active(next) == if next[id] == 0 then Active(references) - {id} else Active(references);
    forall x: nat ensures AccountedAt(ir, roots, next, [], later, x) {
      assert AccountedAt(ir, roots, references, [], owed + [id], x);
      CountAppend(owed, [id], x);
      CountOne(id, x);
      if next[id] == 0 {
        CountAppend(owed, ir[id].children, x);
        DemandGrows(ir, Active(next), id, |ir|, x);
        assert Active(next) + {id} == Active(references);
      }
    }
  }

  /** Replacing one slot trades an owed hold of the new root for one of the old root. */
  lemma {:induction false} SlotReplaced(ir: Dag, roots: seq<Option<nat>>, references: seq<nat>, s: nat, root: Option<nat>)
    requires s < |roots|
    requires Accounted(ir, roots, references, [], if root.Some? then [root.value] else [])
    ensures Accounted(ir, roots[s := root], references, [], if roots[s].Some? then [roots[s].value] else [])
  {
    var before, after := if root.Some? then [root.value] else [], if roots[s].Some? then [roots[s].value] else [];
    var updated := roots[s := root];
    forall x: nat ensures AccountedAt(ir, updated, references, [], after, x) {
      assert AccountedAt(ir, roots, references, [], before, x);
      SlotsUpdate(roots, s, root, x);
      if root.Some? { CountOne(root.value, x); }
      if roots[s].Some? { CountOne(roots[s].value, x); }
    }
  }

  /** Recorded parents are exactly the active ones. */
  ghost predicate ParentAt(ir: Dag, references: seq<nat>, parents: seq<set<nat>>, x: nat, p: nat) {
    (x < |parents| && p in parents[x]) <==> (p < |ir| && p in Active(references) && x in ir[p].children)
  }

  ghost predicate ParentsExact(ir: Dag, references: seq<nat>, parents: seq<set<nat>>) {
    forall x: nat, p: nat {:trigger ParentAt(ir, references, parents, x, p)} :: ParentAt(ir, references, parents, x, p)
  }

  /** While a newly active (or newly inactive) term's children are being visited, its own
      entries exist for the children in `linked` only. */
  ghost predicate PartialAt(ir: Dag, others: set<nat>, id: nat, linked: set<nat>, parents: seq<set<nat>>, x: nat, p: nat) {
    (x < |parents| && p in parents[x]) <==>
    ((p < |ir| && p in others && x in ir[p].children) || (p == id && x in linked))
  }

  ghost predicate ParentsPartial(ir: Dag, others: set<nat>, id: nat, linked: set<nat>, parents: seq<set<nat>>) {
    forall x: nat, p: nat {:trigger PartialAt(ir, others, id, linked, parents, x, p)} ::
      PartialAt(ir, others, id, linked, parents, x, p)
  }

  lemma {:induction false} PartialStart(ir: Dag, references: seq<nat>, id: nat, parents: seq<set<nat>>)
    requires ParentsExact(ir, references, parents)
    ensures ParentsPartial(ir, Active(references), id, {}, parents)
  {
    forall x: nat, p: nat ensures PartialAt(ir, Active(references), id, {}, parents, x, p) {
      assert ParentAt(ir, references, parents, x, p);
    }
  }

  lemma {:induction false} PartialFinish(ir: Dag, others: set<nat>, id: nat, linked: set<nat>, parents: seq<set<nat>>, references: seq<nat>)
    requires ParentsPartial(ir, others, id, linked, parents) && id < |ir|
    requires Active(references) == others + {id} && forall x: nat :: x in linked <==> x in ir[id].children
    ensures ParentsExact(ir, references, parents)
  {
    forall x: nat, p: nat ensures ParentAt(ir, references, parents, x, p) {
      assert PartialAt(ir, others, id, linked, parents, x, p);
    }
  }

  lemma {:induction false} AddParent(ir: Dag, others: set<nat>, id: nat, linked: set<nat>, parents: seq<set<nat>>, child: nat)
    requires ParentsPartial(ir, others, id, linked, parents) && child < |parents|
    ensures ParentsPartial(ir, others, id, linked + {child}, parents[child := parents[child] + {id}])
  {
    var updated := parents[child := parents[child] + {id}];
    forall x: nat, p: nat ensures PartialAt(ir, others, id, linked + {child}, updated, x, p) {
      assert PartialAt(ir, others, id, linked, parents, x, p);
    }
  }

  ghost function ChildSet(ir: Dag, id: nat): (c: set<nat>)
    requires id < |ir|
    ensures forall x: nat :: x in c <==> x in ir[id].children
  {
    set x | x in ir[id].children
  }

  lemma {:induction false} DropParent(ir: Dag, others: set<nat>, id: nat, linked: set<nat>, parents: seq<set<nat>>, child: nat)
    requires ParentsPartial(ir, others, id, linked, parents) && child < |parents| && id !in others
    ensures ParentsPartial(ir, others, id, linked - {child}, parents[child := parents[child] - {id}])
  {
    var updated := parents[child := parents[child] - {id}];
    forall x: nat, p: nat ensures PartialAt(ir, others, id, linked - {child}, updated, x, p) {
      assert PartialAt(ir, others, id, linked, parents, x, p);
    }
  }

  lemma {:induction false} UnlinkStart(ir: Dag, before: seq<nat>, after: seq<nat>, id: nat, parents: seq<set<nat>>)
    requires ParentsExact(ir, before, parents) && id < |ir| && id in Active(before)
    requires Active(after) == Active(before) - {id}
    ensures ParentsPartial(ir, Active(after), id, ChildSet(ir, id), parents)
  {
    forall x: nat, p: nat ensures PartialAt(ir, Active(after), id, ChildSet(ir, id), parents, x, p) {
      assert ParentAt(ir, before, parents, x, p);
    }
  }

  lemma {:induction false} UnlinkFinish(ir: Dag, references: seq<nat>, id: nat, linked: set<nat>, parents: seq<set<nat>>)
    requires ParentsPartial(ir, Active(references), id, linked, parents) && forall x: nat :: x !in linked
    ensures ParentsExact(ir, references, parents)
  {
    forall x: nat, p: nat ensures ParentAt(ir, references, parents, x, p) {
      assert PartialAt(ir, Active(references), id, linked, parents, x, p);
    }
  }

  lemma {:induction false} FewerActive(ir: Dag, before: seq<nat>, after: seq<nat>, indexed: seq<bool>, variables: map<string, seq<nat>>)
    requires VariablesListed(ir, before, indexed, variables) && Active(after) <= Active(before)
    ensures VariablesListed(ir, after, indexed, variables)
  {
    forall x: nat ensures VariableAt(ir, after, indexed, variables, x) {
      assert VariableAt(ir, before, indexed, variables, x);
    }
  }

  /** `rootSlots` inverts `roots`. */
  ghost predicate SlotAt(roots: seq<Option<nat>>, rootSlots: seq<set<nat>>, x: nat, s: nat) {
    (x < |rootSlots| && s in rootSlots[x]) <==> (s < |roots| && roots[s] == Some(x))
  }

  ghost predicate SlotsExact(roots: seq<Option<nat>>, rootSlots: seq<set<nat>>) {
    forall x: nat, s: nat {:trigger SlotAt(roots, rootSlots, x, s)} :: SlotAt(roots, rootSlots, x, s)
  }

  function Listed(variables: map<string, seq<nat>>, name: string): seq<nat> {
    if name in variables then variables[name] else []
  }

  /** The terms listed under a name are its variables seen so far, active ones included. */
  ghost predicate VariableAt(ir: Dag, references: seq<nat>, indexed: seq<bool>, variables: map<string, seq<nat>>, x: nat) {
    && (x in Active(references) ==> x < |indexed| && indexed[x])
    && (x < |ir| && x < |indexed| && indexed[x] && ir[x].op.Variable? ==> x in Listed(variables, ir[x].op.name))
  }

  ghost predicate VariablesListed(ir: Dag, references: seq<nat>, indexed: seq<bool>, variables: map<string, seq<nat>>) {
    && (forall x: nat {:trigger VariableAt(ir, references, indexed, variables, x)} ::
          VariableAt(ir, references, indexed, variables, x))
    && NamesExact(ir, indexed, variables)
  }

  ghost predicate NamesExact(ir: Dag, indexed: seq<bool>, variables: map<string, seq<nat>>) {
    forall name: string, k: nat | k < |Listed(variables, name)| ::
      Listed(variables, name)[k] < |ir| && Listed(variables, name)[k] < |indexed| && ir[Listed(variables, name)[k]].op == Variable(name)
  }

  /** The tables depend on the counts only through which of them are positive. */
  lemma {:induction false} SameActive(ir: Dag, before: seq<nat>, after: seq<nat>, indexed: seq<bool>, parents: seq<set<nat>>, variables: map<string, seq<nat>>)
    requires Active(before) == Active(after)
    ensures ParentsExact(ir, before, parents) ==> ParentsExact(ir, after, parents)
    ensures VariablesListed(ir, before, indexed, variables) ==> VariablesListed(ir, after, indexed, variables)
  {
    if ParentsExact(ir, before, parents) {
      forall x: nat, p: nat ensures ParentAt(ir, after, parents, x, p) {
        assert ParentAt(ir, before, parents, x, p);
      }
    }
    if VariablesListed(ir, before, indexed, variables) {
      FewerActive(ir, before, after, indexed, variables);
    }
  }

  /** Equal counts keep the accounts. */
  lemma {:induction false} SameAccounts(ir: Dag, roots: seq<Option<nat>>, before: seq<nat>, after: seq<nat>, pending: seq<nat>, owed: seq<nat>)
    requires Accounted(ir, roots, before, pending, owed) && Active(before) == Active(after)
    requires forall x: nat :: Refs(after, x) == Refs(before, x)
    ensures Accounted(ir, roots, after, pending, owed)
  {
    forall x: nat ensures AccountedAt(ir, roots, after, pending, owed, x) {
      assert AccountedAt(ir, roots, before, pending, owed, x);
    }
  }

  /** Indexing a term on its first activation. */
  lemma {:induction false} IndexTerm(ir: Dag, references: seq<nat>, indexed: seq<bool>, variables: map<string, seq<nat>>, id: nat,
                  active: seq<nat>, indexed': seq<bool>, variables': map<string, seq<nat>>)
    requires VariablesListed(ir, references, indexed, variables) && id < |indexed| && id < |ir|
    requires Active(active) == Active(references) + {id}
    requires indexed' == indexed[id := true]
    requires variables' == if !indexed[id] && ir[id].op.Variable?
                           then variables[ir[id].op.name := Listed(variables, ir[id].op.name) + [id]] else variables
    ensures VariablesListed(ir, active, indexed', variables')
  {
    forall x: nat ensures VariableAt(ir, active, indexed', variables', x) {
      assert VariableAt(ir, references, indexed, variables, x);
    }
    forall name: string, k: nat | k < |Listed(variables', name)|
      ensures Listed(variables', name)[k] < |ir| && Listed(variables', name)[k] < |indexed'|
      ensures ir[Listed(variables', name)[k]].op == Variable(name)
    {
      assert k < |Listed(variables, name)| ==>
          Listed(variables', name)[k] == Listed(variables, name)[k] && ir[Listed(variables, name)[k]].op == Variable(name);
    }
  }

  /** Padding the per-term tables records nothing new. */
  lemma {:induction false} PadTables(ir: Dag, roots: seq<Option<nat>>, references: seq<nat>, indexed: seq<bool>, parents: seq<set<nat>>,
                  rootSlots: seq<set<nat>>, variables: map<string, seq<nat>>, k: nat)
    requires |indexed| == |parents| == |rootSlots| == |references|
    ensures var more := references + seq(k, _ => 0);
            && (forall x: nat :: Refs(more, x) == Refs(references, x)) && Active(more) == Active(references)
            && (ParentsExact(ir, references, parents) ==> ParentsExact(ir, more, parents + seq(k, _ => {})))
            && (SlotsExact(roots, rootSlots) ==> SlotsExact(roots, rootSlots + seq(k, _ => {})))
            && (VariablesListed(ir, references, indexed, variables) ==>
                  VariablesListed(ir, more, indexed + seq(k, _ => false), variables))
  {
    var more := references + seq(k, _ => 0);
    assert Active(more) == Active(references);
    var parents', rootSlots', indexed' := parents + seq(k, _ => {}), rootSlots + seq(k, _ => {}), indexed + seq(k, _ => false);
    if ParentsExact(ir, references, parents) {
      forall x: nat, p: nat ensures ParentAt(ir, more, parents', x, p) {
        assert ParentAt(ir, references, parents, x, p);
      }
    }
    if SlotsExact(roots, rootSlots) {
      forall x: nat, s: nat ensures SlotAt(roots, rootSlots', x, s) {
        assert SlotAt(roots, rootSlots, x, s);
      }
    }
    if VariablesListed(ir, references, indexed, variables) {
      forall x: nat ensures VariableAt(ir, more, indexed', variables, x) {
        assert VariableAt(ir, references, indexed, variables, x);
      }
    }
  }

  /** Resizing the slot table with empty slots. */
  function Padded(roots: seq<Option<nat>>, slot: nat): (r: seq<Option<nat>>)
    ensures |r| > slot
  {
    if |roots| <= slot then roots + seq(slot + 1 - |roots|, _ => None) else roots
  }

  lemma {:induction false} PadRoots(ir: Dag, roots: seq<Option<nat>>, references: seq<nat>, rootSlots: seq<set<nat>>, k: nat)
    requires SlotsExact(roots, rootSlots) && Accounted(ir, roots, references, [], [])
    ensures SlotsExact(roots + seq(k, _ => None), rootSlots)
    ensures Accounted(ir, roots + seq(k, _ => None), references, [], [])
  {
    var padded: seq<Option<nat>> := roots + seq(k, _ => None);
    forall x: nat, s: nat ensures SlotAt(padded, rootSlots, x, s) {
      assert SlotAt(roots, rootSlots, x, s);
    }
    forall x: nat ensures AccountedAt(ir, padded, references, [], [], x) {
      assert AccountedAt(ir, roots, references, [], [], x);
      SlotsPadded(roots, k, x);
    }
  }

  /** The inverse table after one slot changes. */
  function Moved(roots: seq<Option<nat>>, rootSlots: seq<set<nat>>, slot: nat, root: Option<nat>): seq<set<nat>>
    requires slot < |roots| && (root.Some? ==> root.value < |rootSlots|)
    requires roots[slot].Some? ==> roots[slot].value < |rootSlots|
  {
    var added := if root.Some? then rootSlots[root.value := rootSlots[root.value] + {slot}] else rootSlots;
    if roots[slot].Some? then added[roots[slot].value := added[roots[slot].value] - {slot}] else added
  }

  lemma {:induction false} MoveSlot(roots: seq<Option<nat>>, rootSlots: seq<set<nat>>, slot: nat, root: Option<nat>)
    requires SlotsExact(roots, rootSlots) && slot < |roots| && roots[slot] != root
    requires root.Some? ==> root.value < |rootSlots|
    ensures roots[slot].Some? ==> roots[slot].value < |rootSlots|
    ensures SlotsExact(roots[slot := root], Moved(roots, rootSlots, slot, root))
  {
    if roots[slot].Some? {
      assert SlotAt(roots, rootSlots, roots[slot].value, slot);
    }
    var moved, updated := Moved(roots, rootSlots, slot, root), roots[slot := root];
    forall x: nat, s: nat ensures SlotAt(updated, moved, x, s) {
      assert SlotAt(roots, rootSlots, x, s);
    }
  }

  /** Some variable of that name lies at or below the term. */
  ghost predicate Above(ir: Dag, name: string, t: nat)
    requires Ordered(ir)
  {
    exists v: nat :: v < |ir| && ir[v].op == Variable(name) && Reaches(ir, t, v)
  }

  /** The upward search: everything seen is an active ancestor, and whatever is still
      missing lies above something pending. */
  ghost predicate Upward(ir: Dag, references: seq<nat>, parents: seq<set<nat>>, name: string, terms: set<nat>, pending: seq<nat>)
    requires Ordered(ir)
  {
    && (forall t: nat | t in terms || t in pending :: t in Active(references) && Above(ir, name, t))
    && (forall t: nat, p: nat | t in terms && t < |parents| && p in parents[t] :: p in terms || p in pending)
    && (forall v: nat | v < |ir| && v in Active(references) && ir[v].op == Variable(name) :: v in terms || v in pending)
  }

  lemma {:induction false} Climb(ir: Dag, references: seq<nat>, parents: seq<set<nat>>, name: string, terms: set<nat>, pending: seq<nat>,
              id: nat, above: seq<nat>)
    requires Ordered(ir) && ParentsExact(ir, references, parents) && id < |parents|
    requires Upward(ir, references, parents, name, terms, pending + [id])
    requires forall p: nat :: p in above <==> p in parents[id]
    ensures Upward(ir, references, parents, name, terms + {id}, pending + above)
  {
    assert id in pending + [id];
    forall p: nat | p in above ensures p in Active(references) && Above(ir, name, p) {
      assert ParentAt(ir, references, parents, id, p);
      var v: nat :| v < |ir| && ir[v].op == Variable(name) && Reaches(ir, id, v);
      ReachesTrans(ir, p, id, v);
    }
    forall t: nat | t in terms + {id} || t in pending + above ensures t in Active(references) && Above(ir, name, t) {
      assert t in terms || t in pending + [id] || t in above;
    }
    forall t: nat, p: nat | t in terms + {id} && t < |parents| && p in parents[t]
      ensures p in terms + {id} || p in pending + above
    {
      if t != id {
        assert p in terms || p in pending + [id];
      }
    }
    forall v: nat | v < |ir| && v in Active(references) && ir[v].op == Variable(name)
      ensures v in terms + {id} || v in pending + above
    {
      assert v in terms || v in pending + [id];
    }
  }

  lemma {:induction false} AllClimbed(ir: Dag, roots: seq<Option<nat>>, references: seq<nat>, parents: seq<set<nat>>, name: string,
                                      terms: set<nat>, t: nat, v: nat)
    requires Ordered(ir) && |references| <= |ir| && Accounted(ir, roots, references, [], [])
    requires ParentsExact(ir, references, parents) && Upward(ir, references, parents, name, terms, [])
    requires t in Active(references) && v < |ir| && ir[v].op == Variable(name) && Reaches(ir, t, v)
    ensures t in terms
    decreases t
  {
    if t == v {
      assert v in terms || v in [];
    } else {
      var k :| 0 <= k < |ir[t].children| && Reaches(ir, ir[t].children[k], v);
      var c: nat := ir[t].children[k];
      assert Reaches(ir, c, c);
      ActiveBelow(ir, roots, references, t, c);
      AllClimbed(ir, roots, references, parents, name, terms, c, v);
      assert ParentAt(ir, references, parents, c, t);
      assert t in terms || t in [];
    }
  }

  /** One of the terms is the root held by a slot. */
  ghost predicate HeldBy(rootSlots: seq<set<nat>>, terms: set<nat>, s: nat) {
    exists t: nat :: t in terms && t < |rootSlots| && s in rootSlots[t]
  }

  lemma {:induction false} NothingHeld(rootSlots: seq<set<nat>>)
    ensures forall s: nat :: !HeldBy(rootSlots, {}, s)
  {
  }

  lemma {:induction false} OneMoreHeld(rootSlots: seq<set<nat>>, terms: set<nat>, id: nat)
    requires id < |rootSlots|
    ensures forall s: nat :: HeldBy(rootSlots, terms + {id}, s) <==> HeldBy(rootSlots, terms, s) || s in rootSlots[id]
  {
  }

  lemma {:induction false} PendingActive(ir: Dag, references: seq<nat>, parents: seq<set<nat>>, name: string, terms: set<nat>, pending: seq<nat>, id: nat)
    requires Ordered(ir) && Upward(ir, references, parents, name, terms, pending) && id in pending
    ensures id < |references|
  {
    assert id in Active(references);
  }

  lemma {:induction false} DropSeen(ir: Dag, references: seq<nat>, parents: seq<set<nat>>, name: string, terms: set<nat>, pending: seq<nat>, id: nat)
    requires Ordered(ir) && Upward(ir, references, parents, name, terms, pending + [id]) && id in terms
    ensures Upward(ir, references, parents, name, terms, pending)
  {
    assert forall x :: x in pending + [id] <==> x in pending || x == id;
  }

  /** A finished search holds exactly the active ancestors and the slots above them. */
  lemma {:induction false} ClosureExact(ir: Dag, roots: seq<Option<nat>>, references: seq<nat>, parents: seq<set<nat>>, rootSlots: seq<set<nat>>,
                     name: string, terms: set<nat>)
    requires Ordered(ir) && |references| <= |ir| && Accounted(ir, roots, references, [], [])
    requires ParentsExact(ir, references, parents) && SlotsExact(roots, rootSlots)
    requires Upward(ir, references, parents, name, terms, [])
    ensures forall t: nat :: t in terms <==> Refs(references, t) > 0 && Above(ir, name, t)
    ensures forall s: nat :: HeldBy(rootSlots, terms, s) <==>
              s < |roots| && roots[s].Some? && Above(ir, name, roots[s].value)
  {
    forall t: nat ensures t in terms <==> Refs(references, t) > 0 && Above(ir, name, t) {
      if Refs(references, t) > 0 && Above(ir, name, t) {
        var v: nat :| v < |ir| && ir[v].op == Variable(name) && Reaches(ir, t, v);
        AllClimbed(ir, roots, references, parents, name, terms, t, v);
      }
    }
    forall s: nat ensures HeldBy(rootSlots, terms, s) <==>
                          s < |roots| && roots[s].Some? && Above(ir, name, roots[s].value)
    {
      if t: nat :| t in terms && t < |rootSlots| && s in rootSlots[t] {
        assert SlotAt(roots, rootSlots, t, s);
      }
      if s < |roots| && roots[s].Some? && Above(ir, name, roots[s].value) {
        var t: nat := roots[s].value;
        assert SlotAt(roots, rootSlots, t, s);
        assert Some(t) in roots && Reaches(ir, t, t);
        ActiveIffRooted(ir, roots, references, t);
      }
    }
  }

  predicate StrictlySorted(s: seq<nat>) {
    forall i, j | 0 <= i < j < |s| :: s[i] < s[j]
  }

  /** Sorting followed by removing adjacent duplicates. */
  method SortDistinct(s: seq<nat>) returns (r: seq<nat>)
    ensures StrictlySorted(r) && forall x: nat :: x in r <==> x in s
  {
    r := [];
    for k := 0 to |s|
      invariant StrictlySorted(r) && forall x: nat :: x in r <==> x in s[..k]
    {
      var x := s[k];
      assert s[..k + 1] == s[..k] + [x];
      var i := 0;
      while i < |r| && r[i] < x
        invariant i <= |r| && forall j | 0 <= j < i :: r[j] < x
      {
        i := i + 1;
      }
      if i == |r| || r[i] != x {
        assert r == r[..i] + r[i..];
        r := r[..i] + [x] + r[i..];
      }
    }
    assert s[..|s|] == s;
  }

  datatype Closure = Closure(terms: set<nat>, roots: seq<nat>)

  class Uses {
    const ir: Dag
    var roots: seq<Option<nat>>
    var references: seq<nat>
    var indexed: seq<bool>
    var parents: seq<set<nat>>
    var rootSlots: seq<set<nat>>
    var variables: map<string, seq<nat>>

    constructor (ir: Dag)
      requires Ordered(ir)
      ensures Valid() && this.ir == ir && roots == []
    {
      this.ir := ir;
      roots, references, indexed, parents, rootSlots, variables := [], [], [], [], [], map[];
      new;
      forall x: nat ensures AccountedAt(ir, roots, references, [], [], x) {
        DemandPositive(ir, Active(references), |ir|, x);
      }
    }

    ghost predicate Shaped()
      reads this
    {
      && Ordered(ir) && |references| <= |ir|
      && |indexed| == |parents| == |rootSlots| == |references|
    }

    ghost predicate Tables()
      reads this
    {
      && Shaped() && ParentsExact(ir, references, parents) && VariablesListed(ir, references, indexed, variables)
    }

    ghost predicate Valid()
      reads this
    {
      && Tables() && SlotsExact(roots, rootSlots) && Accounted(ir, roots, references, [], [])
    }

    /** Counts are root slots plus active uses, and are positive exactly below current roots. */
    lemma {:induction false} CountsExact(x: nat)
      requires Valid()
      ensures Refs(references, x) == Slots(roots, x) + Demand(ir, Active(references), |ir|, x)
      ensures Refs(references, x) > 0 <==> Rooted(ir, roots, x)
    {
      assert AccountedAt(ir, roots, references, [], [], x);
      ActiveIffRooted(ir, roots, references, x);
    }

    /** Make room for a handle without changing what is recorded. */
    method Grow(id: nat)
      requires Shaped() && id < |ir|
      modifies this`references, this`indexed, this`parents, this`rootSlots
      ensures Shaped() && id < |references| && |references| >= |old(references)|
      ensures old(parents) <= parents && forall x | |old(parents)| <= x < |parents| :: parents[x] == {}
      ensures forall x: nat :: Refs(references, x) == Refs(old(references), x)
      ensures Active(references) == Active(old(references))
      ensures ParentsExact(ir, old(references), old(parents)) ==> ParentsExact(ir, references, parents)
      ensures SlotsExact(roots, old(rootSlots)) ==> SlotsExact(roots, rootSlots)
      ensures VariablesListed(ir, old(references), old(indexed), variables) ==> VariablesListed(ir, references, indexed, variables)
    {
      if |references| < id + 1 {
        var k := id + 1 - |references|;
        PadTables(ir, roots, references, indexed, parents, rootSlots, variables, k);
        references := references + seq(k, _ => 0);
        indexed := indexed + seq(k, _ => false);
        parents := parents + seq(k, _ => {});
        rootSlots := rootSlots + seq(k, _ => {});
      }
    }

    /** Link a newly active term below each of its children's parent sets. */
    method LinkChildren(id: nat)
      requires Shaped() && id < |references| && ParentsPartial(ir, Active(references) - {id}, id, {}, parents)
      requires VariablesListed(ir, references, indexed, variables) && SlotsExact(roots, rootSlots)
      requires references[id] == 1
      modifies this`references, this`indexed, this`parents, this`rootSlots
      ensures Tables() && SlotsExact(roots, rootSlots)
      ensures forall x: nat :: Refs(references, x) == Refs(old(references), x)
      ensures Active(references) == Active(old(references))
    {
      ghost var others := Active(references) - {id};
      ghost var linked: set<nat> := {};
      var children := ir[id].children;
      for k := 0 to |children|
        invariant Shaped() && id < |references| && Refs(references, id) == 1
        invariant Active(references) == Active(old(references))
        invariant forall x: nat :: Refs(references, x) == Refs(old(references), x)
        invariant ParentsPartial(ir, others, id, linked, parents)
        invariant forall x: nat :: x in linked <==> x in children[..k]
        invariant VariablesListed(ir, references, indexed, variables) && SlotsExact(roots, rootSlots)
      {
        var child := children[k];
        GrowPartial(child, others, id, linked);
        AddParent(ir, others, id, linked, parents, child);
        parents := parents[child := parents[child] + {id}];
        linked := linked + {child};
        assert children[..k + 1] == children[..k] + [child];
      }
      assert children[..|children|] == children;
      assert id in Active(references);
      assert Active(references) == others + {id};
      PartialFinish(ir, others, id, linked, parents, references);
    }

    method GrowPartial(child: nat, ghost others: set<nat>, ghost id: nat, ghost linked: set<nat>)
      requires Shaped() && child < |ir| && ParentsPartial(ir, others, id, linked, parents)
      requires VariablesListed(ir, references, indexed, variables) && SlotsExact(roots, rootSlots)
      modifies this`references, this`indexed, this`parents, this`rootSlots
      ensures Shaped() && child < |references| && |references| >= |old(references)|
      ensures forall x: nat :: Refs(references, x) == Refs(old(references), x)
      ensures Active(references) == Active(old(references))
      ensures ParentsPartial(ir, others, id, linked, parents)
      ensures VariablesListed(ir, references, indexed, variables) && SlotsExact(roots, rootSlots)
    {
      ghost var before := parents;
      Grow(child);
      forall x: nat, p: nat ensures PartialAt(ir, others, id, linked, parents, x, p) {
        assert PartialAt(ir, others, id, linked, before, x, p);
      }
    }

    /** One pop of the retain stack. */
    method RetainOne(id: nat, pending: seq<nat>, ghost owed: seq<nat>) returns (next: seq<nat>)
      requires Tables() && SlotsExact(roots, rootSlots) && id < |ir|
      requires Accounted(ir, roots, references, pending + [id], owed)
      modifies this`references, this`indexed, this`parents, this`rootSlots, this`variables
      ensures Tables() && SlotsExact(roots, rootSlots) && Accounted(ir, roots, references, next, owed)
      ensures Active(references) == Active(old(references)) + {id}
      ensures next == if id in Active(old(references)) then pending else pending + ir[id].children
    {
      ghost var start := references;
      Grow(id);
      SameAccounts(ir, roots, start, references, pending + [id], owed);
      ghost var before := references;
      var first := references[id] == 0;
      references := references[id := references[id] + 1];
      RetainStep(ir, roots, before, pending, owed, id, references);
      if !first {
        assert Active(references) == Active(before);
        SameActive(ir, before, references, indexed, parents, variables);
        return pending;
      }
      ghost var indexed0, variables0 := indexed, variables;
      if !indexed[id] {
        indexed := indexed[id := true];
        if ir[id].op.Variable? {
          var name := ir[id].op.name;
          variables := variables[name := Listed(variables, name) + [id]];
        }
      }
      assert indexed == indexed0[id := true];
      IndexTerm(ir, before, indexed0, variables0, id, references, indexed, variables);
      PartialStart(ir, before, id, parents);
      assert Active(references) - {id} == Active(before);
      ghost var counted := references;
      LinkChildren(id);
      SameAccounts(ir, roots, counted, references, pending + ir[id].children, owed);
      return pending + ir[id].children;
    }

    method Retain(root: nat)
      requires Valid() && root < |ir|
      modifies this`references, this`indexed, this`parents, this`rootSlots, this`variables
      ensures Tables() && SlotsExact(roots, rootSlots) && Accounted(ir, roots, references, [], [root])
      ensures root < |references|
    {
      var pending: seq<nat> := [root];
      ghost var universe := Below(|ir|);
      StartRetain(root);
      while pending != []
        invariant Tables() && SlotsExact(roots, rootSlots) && Accounted(ir, roots, references, pending, [root])
        invariant forall k | 0 <= k < |pending| :: pending[k] < |ir|
        invariant root in pending || root in Active(references)
        invariant forall x: nat | x < |ir| :: x in universe
        decreases universe - Active(references), |pending|
      {
        var id: nat := pending[|pending| - 1];
        assert id in pending && pending == pending[..|pending| - 1] + [id];
        assert forall k | 0 <= k < |ir[id].children| :: ir[id].children[k] < id;
        pending := RetainOne(id, pending[..|pending| - 1], [root]);
      }
    }

    lemma {:induction false} StartRetain(root: nat)
      requires Accounted(ir, roots, references, [], [])
      ensures Accounted(ir, roots, references, [root], [root])
    {
      forall x: nat ensures AccountedAt(ir, roots, references, [root], [root], x) {
        assert AccountedAt(ir, roots, references, [], [], x);
      }
    }

    /** Remove a newly inactive term from its children's parent sets. */
    method UnlinkChildren(id: nat)
      requires Shaped() && id < |references| && id !in Active(references)
      requires ParentsPartial(ir, Active(references), id, ChildSet(ir, id), parents)
      modifies this`parents
      ensures Shaped() && ParentsExact(ir, references, parents)
    {
      var children := ir[id].children;
      ghost var linked := ChildSet(ir, id);
      forall c: nat | c in children ensures c < |parents| {
        assert PartialAt(ir, Active(references), id, linked, parents, c, id);
      }
      for k := 0 to |children|
        invariant Shaped() && ParentsPartial(ir, Active(references), id, linked, parents)
        invariant forall x: nat :: x in linked <==> x in children && x !in children[..k]
        invariant forall c: nat | c in children :: c < |parents|
      {
        var child := children[k];
        DropParent(ir, Active(references), id, linked, parents, child);
        parents := parents[child := parents[child] - {id}];
        linked := linked - {child};
        assert children[..k + 1] == children[..k] + [child];
      }
      assert children[..|children|] == children;
      UnlinkFinish(ir, references, id, linked, parents);
    }

    /** One pop of the release stack. */
    method ReleaseOne(id: nat, ghost owed: seq<nat>) returns (children: seq<nat>)
      requires Tables() && SlotsExact(roots, rootSlots)
      requires Accounted(ir, roots, references, [], owed + [id])
      modifies this`references, this`parents
      ensures Tables() && SlotsExact(roots, rootSlots) && Accounted(ir, roots, references, [], owed + children)
      ensures id < |ir|
      ensures if id in Active(references) then children == [] && Active(references) == Active(old(references))
              else children == ir[id].children && Active(references) < Active(old(references))
    {
      ReleaseStep(ir, roots, references, owed, id);
      ghost var before := references;
      references := references[id := references[id] - 1];
      if references[id] != 0 {
        SameActive(ir, before, references, indexed, parents, variables);
        assert owed + [] == owed;
        return [];
      }
      UnlinkStart(ir, before, references, id, parents);
      assert id in Active(before);
      FewerActive(ir, before, references, indexed, variables);
      UnlinkChildren(id);
      return ir[id].children;
    }

    method Release(root: nat)
      requires Tables() && SlotsExact(roots, rootSlots) && Accounted(ir, roots, references, [], [root])
      modifies this`references, this`parents
      ensures Valid()
    {
      var pending: seq<nat> := [root];
      while pending != []
        invariant Tables() && SlotsExact(roots, rootSlots) && Accounted(ir, roots, references, [], pending)
        decreases Active(references), |pending|
      {
        var id := pending[|pending| - 1];
        assert pending == pending[..|pending| - 1] + [id];
        var children := ReleaseOne(id, pending[..|pending| - 1]);
        pending := pending[..|pending| - 1] + children;
      }
    }

    /** Point a slot at a new root (or none).  The new root is retained before the old one is released. */
    method SetRoot(slot: nat, root: Option<nat>)
      requires Valid() && (root.Some? ==> root.value < |ir|)
      modifies this
      ensures Valid()
      ensures roots == Padded(old(roots), slot)[slot := root]
    {
      if |roots| <= slot {
        PadRoots(ir, roots, references, rootSlots, slot + 1 - |roots|);
        roots := roots + seq(slot + 1 - |roots|, _ => None);
      }
      var previous := roots[slot];
      if previous == root {
        return;
      }
      if root.Some? {
        Retain(root.value);
      }
      SlotReplaced(ir, roots, references, slot, root);
      MoveSlot(roots, rootSlots, slot, root);
      if root.Some? {
        rootSlots := rootSlots[root.value := rootSlots[root.value] + {slot}];
      }
      roots := roots[slot := root];
      if previous.Some? {
        rootSlots := rootSlots[previous.value := rootSlots[previous.value] - {slot}];
        Release(previous.value);
      }
    }

    /** The active ancestors of a name's variables, and the slots that reach them. */
    method VariableClosure(name: string) returns (closure: Closure)
      requires Valid()
      ensures forall t: nat :: t in closure.terms <==> Refs(references, t) > 0 && Above(ir, name, t)
      ensures StrictlySorted(closure.roots)
      ensures forall s: nat :: s in closure.roots <==> s < |roots| && roots[s].Some? && Above(ir, name, roots[s].value)
    {
      hide Upward, HeldBy, ParentsExact, SlotsExact, Accounted, VariablesListed, Above;
      var pending := ActiveVariables(name);
      var terms: set<nat> := {};
      NothingHeld(rootSlots);
      var slots: seq<nat> := [];
      ghost var universe := Below(|ir|);
      while pending != []
        invariant Upward(ir, references, parents, name, terms, pending)
        invariant forall s: nat :: s in slots <==> HeldBy(rootSlots, terms, s)
        invariant terms <= universe && forall x: nat | x < |ir| :: x in universe
        decreases universe - terms, |pending|
      {
        var id: nat := pending[|pending| - 1];
        ghost var before := pending;
        pending := pending[..|pending| - 1];
        assert before == pending + [id] && id in before;
        PendingActive(ir, references, parents, name, terms, before, id);
        if id !in terms {
          var above := Listing(parents[id]);
          var held := Listing(rootSlots[id]);
          Climb(ir, references, parents, name, terms, pending, id, above);
          OneMoreHeld(rootSlots, terms, id);
          pending, slots := pending + above, slots + held;
          terms := terms + {id};
        } else {
          DropSeen(ir, references, parents, name, terms, pending, id);
        }
      }
      var sorted := SortDistinct(slots);
      ClosureExact(ir, roots, references, parents, rootSlots, name, terms);
      return Closure(terms, sorted);
    }

    method ActiveVariables(name: string) returns (pending: seq<nat>)
      requires Valid()
      ensures Upward(ir, references, parents, name, {}, pending)
    {
      pending := [];
      var listed := Listed(variables, name);
      for k := 0 to |listed|
        invariant forall x: nat :: x in pending <==> x in listed[..k] && x in Active(references)
      {
        assert listed[..k + 1] == listed[..k] + [listed[k]];
        if references[listed[k]] != 0 {
          pending := pending + [listed[k]];
        }
      }
      assert listed[..|listed|] == listed;
      forall x: nat | x in pending ensures Above(ir, name, x) {
        var k :| 0 <= k < |listed| && listed[k] == x;
        assert Reaches(ir, x, x);
      }
      forall x: nat | x in Active(references) && x < |ir| && ir[x].op == Variable(name) ensures x in pending {
        assert VariableAt(ir, references, indexed, variables, x);
      }
    }
  }
}
