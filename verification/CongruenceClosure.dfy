/** The closure fixpoint that adds congruence edges to the equality graph. */
module CongruenceClosure {
  import opened Terms
  import opened Congruence
  import opened EqualityGraph
  import opened UnionFind
  import opened ClosureHistory

  /** The handles the leaf equalities speak of exist. */
  predicate InRange(ir: Dag, leaves: set<Equality>) {
    forall e | e in leaves :: e.left < |ir| && e.right < |ir|
  }

  predicate ChildrenClosed(ir: Dag, terms: set<nat>) {
    forall x: nat, k: nat | x in terms && x < |ir| && k < |ir[x].children| :: ir[x].children[k] in terms
  }

  /** Every congruence with the leaf equalities relates whatever the forest has merged. */
  ghost predicate Entailed(ir: Dag, leaves: set<Equality>, root: Roots) {
    forall rel: Relation, x: nat, y: nat |
      IsCongruence(ir, rel) && Includes(rel, leaves) && Same(root, x, y) :: rel(x, y)
  }

  /** Merged terms are connected, and edges stay inside one class. */
  ghost predicate Mirrors(root: Roots, g: Graph) {
    && Symmetric(g)
    && (forall x: nat, y: nat | Edge(g, x, y) :: Same(root, x, y))
    && (forall x: nat, y: nat | Same(root, x, y) :: Connected(g, x, y))
  }

  /** Merged arguments force merged applications. */
  ghost predicate PairClosed(ir: Dag, root: Roots, x: nat, y: nat) {
    SameSymbol(ir, x, y) && (forall k | 0 <= k < |ir[x].children| :: Same(root, ir[x].children[k], ir[y].children[k]))
    ==> Same(root, x, y)
  }

  lemma {:induction false} PathStaysInClass(g: Graph, root: Roots, p: Path, s: nat, t: nat)
    requires IsPath(g, p, s, t) && s in root
    requires forall x: nat, y: nat | Edge(g, x, y) :: Same(root, x, y)
    ensures Same(root, s, t)
    decreases |p|
  {
    if |p| > 1 {
      assert Edge(g, p[0], p[0 + 1]);
      forall k: nat | k + 1 < |p[1..]| ensures Edge(g, p[1..][k], p[1..][k + 1]) {
        assert Edge(g, p[k + 1], p[k + 1 + 1]);
      }
      PathStaysInClass(g, root, p[1..], p[1], t);
    }
  }

  /** The classes are exactly the connected components. */
  lemma {:induction false} ComponentsAreClasses(g: Graph, root: Roots, x: nat, y: nat)
    requires Mirrors(root, g) && x in root
    ensures Connected(g, x, y) <==> Same(root, x, y)
  {
    if Connected(g, x, y) {
      var p: Path :| IsPath(g, p, x, y);
      PathStaysInClass(g, root, p, x, y);
    }
  }

  /** Merging two entailed-equal terms stays entailed. */
  lemma {:induction false} MergeEntailed(ir: Dag, leaves: set<Equality>, root: Roots, a: nat, b: nat)
    requires Entailed(ir, leaves, root) && a in root && b in root
    requires forall rel: Relation | IsCongruence(ir, rel) && Includes(rel, leaves) :: rel(a, b)
    ensures Entailed(ir, leaves, Rerooted(root, root[a], root[b]))
  {
    var next := Rerooted(root, root[a], root[b]);
    forall rel: Relation, x: nat, y: nat | IsCongruence(ir, rel) && Includes(rel, leaves) && Same(next, x, y)
      ensures rel(x, y)
    {
      assert rel(a, b);
      MergedRelated(ir, leaves, root, a, b, rel, x, y);
    }
  }

  lemma {:induction false} MergedRelated(ir: Dag, leaves: set<Equality>, root: Roots, a: nat, b: nat, rel: Relation, x: nat, y: nat)
    requires Entailed(ir, leaves, root) && a in root && b in root && x in root && y in root
    requires IsCongruence(ir, rel) && Includes(rel, leaves) && rel(a, b)
    requires Rerooted(root, root[a], root[b])[x] == Rerooted(root, root[a], root[b])[y]
    ensures rel(x, y)
  {
    if root[x] == root[y] {
      assert Same(root, x, y);
    } else if root[x] == root[a] {
      assert Same(root, x, a) && Same(root, b, y);
    } else {
      assert Same(root, x, b) && Same(root, a, y);
    }
  }

  /** Merging along a new edge keeps classes and components together. */
  lemma {:induction false} MergeMirrors(root: Roots, g: Graph, h: Graph, a: nat, b: nat)
    requires a in root && b in root && Symmetric(g)
    requires forall x: nat, y: nat | Same(root, x, y) :: Connected(g, x, y)
    requires forall x: nat, y: nat | Edge(g, x, y) :: Edge(h, x, y)
    requires Symmetric(h) && Edge(h, a, b)
    ensures forall x: nat, y: nat | Same(Rerooted(root, root[a], root[b]), x, y) :: Connected(h, x, y)
  {
    var next := Rerooted(root, root[a], root[b]);
    ConnectedEdge(h, a, b);
    ConnectedEdge(h, b, a);
    forall x: nat, y: nat | Same(next, x, y) ensures Connected(h, x, y) {
      if root[x] == root[y] {
        assert Same(root, x, y);
        ConnectedGrows(g, h, x, y);
      } else {
        var c, d := if root[x] == root[a] then a else b, if root[x] == root[a] then b else a;
        assert Same(root, x, c) && Same(root, d, y);
        ConnectedGrows(g, h, x, c);
        ConnectedGrows(g, h, d, y);
        ConnectedTransitive(h, x, c, d);
        ConnectedTransitive(h, x, d, y);
      }
    }
  }

  /** A set of terms with the given ones and everything below them. */
  ghost predicate Contains(ir: Dag, terms: set<nat>, starts: seq<nat>) {
    ChildrenClosed(ir, terms) && forall x | x in starts :: x in terms
  }

  /** Gather the terms below the given ones, and the applications among them. */
  method Collect(ir: Dag, starts: seq<nat>) returns (forest: Forest, apps: seq<nat>)
    requires Ordered(ir)
    ensures fresh(forest) && forest.Valid() && forest.parent.Keys == forest.root.Keys
    ensures forall x | x in forest.parent :: x < |ir| && forest.root[x] == x
    ensures forall x | x in starts && x < |ir| :: x in forest.parent
    ensures ChildrenClosed(ir, forest.parent.Keys)
    ensures forall x :: x in apps <==> x in forest.parent && IsApplication(ir, x)
    ensures forall terms | Contains(ir, terms, starts) :: forest.parent.Keys <= terms
  {
    hide IsForest;
    forest := new Forest();
    forest.SameKeys();
    apps := [];
    var stack: seq<nat> := starts;
    ghost var universe := Below(|ir|);
    while stack != []
      invariant fresh(forest) && forest.Valid() && forest.parent.Keys == forest.root.Keys <= universe
      invariant forall x | x in forest.parent :: forest.root[x] == x
      invariant forall x: nat | x < |ir| :: x in universe
      invariant forall x | x in starts && x < |ir| :: x in forest.parent || x in stack
      invariant forall x: nat, k: nat | x in forest.parent && k < |ir[x].children| ::
                  ir[x].children[k] in forest.parent || ir[x].children[k] in stack
      invariant forall x :: x in apps <==> x in forest.parent && IsApplication(ir, x)
      invariant forall terms | Contains(ir, terms, starts) :: forest.parent.Keys <= terms && forall x | x in stack :: x in terms
      decreases universe - forest.parent.Keys, |stack|
    {
      var x: nat := stack[|stack| - 1];
      ghost var before := stack;
      stack := stack[..|stack| - 1];
      assert before == stack + [x];
      if x < |ir| && x !in forest.parent {
        forest.Add(x);
        forest.SameKeys();
        if IsApplication(ir, x) {
          apps := apps + [x];
        }
        stack := stack + ir[x].children;
      }
    }
  }

  /** Do the arguments of two applications already agree? */
  method ArgumentsMerged(ir: Dag, forest: Forest, x: nat, y: nat) returns (merged: bool)
    requires forest.Valid() && SameSymbol(ir, x, y)
    requires forall k | 0 <= k < |ir[x].children| ::
               ir[x].children[k] in forest.parent && ir[y].children[k] in forest.parent
    ensures merged <==> forall k | 0 <= k < |ir[x].children| :: Same(forest.root, ir[x].children[k], ir[y].children[k])
  {
    for k := 0 to |ir[x].children|
      invariant forall j | 0 <= j < k :: Same(forest.root, ir[x].children[j], ir[y].children[j])
    {
      var a := forest.Find(ir[x].children[k]);
      var b := forest.Find(ir[y].children[k]);
      if a != b {
        return false;
      }
    }
    return true;
  }

  /** Congruent applications are related by every congruence that has the leaves. */
  lemma {:induction false} CongruentEntailed(ir: Dag, leaves: set<Equality>, root: Roots, x: nat, y: nat)
    requires Entailed(ir, leaves, root) && SameSymbol(ir, x, y)
    requires forall k | 0 <= k < |ir[x].children| :: Same(root, ir[x].children[k], ir[y].children[k])
    ensures forall rel: Relation | IsCongruence(ir, rel) && Includes(rel, leaves) :: rel(x, y)
  {
    forall rel: Relation | IsCongruence(ir, rel) && Includes(rel, leaves) ensures rel(x, y) {
      assert ArgumentsRelated(ir, rel, x, y);
    }
  }

  /** The graph holds the leaf equalities, both ways, and nothing else. */
  ghost predicate LeafGraph(g: Graph, leaves: set<Equality>) {
    forall x: nat, y: nat :: Edge(g, x, y) <==> Equality(x, y) in leaves || Equality(y, x) in leaves
  }

  /** Merge the leaf equalities. */
  method MergeLeaves(ir: Dag, leaves: set<Equality>, g: Graph, forest: Forest)
    requires forest.Valid() && LeafGraph(g, leaves)
    requires forall x | x in forest.root :: forest.root[x] == x
    requires forall e | e in leaves :: e.left in forest.parent && e.right in forest.parent
    modifies forest
    ensures forest.Valid() && forest.parent.Keys == old(forest.parent.Keys) == forest.root.Keys
    ensures Entailed(ir, leaves, forest.root) && Mirrors(forest.root, g)
    ensures UpToDate(ir, History([forest.root], []), leaves, g, forest.root)
  {
    var rest := leaves;
    forall x: nat, y: nat | Same(forest.root, x, y) ensures Connected(g, x, y) {
      ConnectedSelf(g, x);
    }
    while rest != {}
      invariant forest.Valid() && forest.parent.Keys == old(forest.parent.Keys) && rest <= leaves
      invariant Entailed(ir, leaves, forest.root)
      invariant forall x: nat, y: nat | Same(forest.root, x, y) :: Connected(g, x, y)
      invariant forall e | e in leaves - rest :: Same(forest.root, e.left, e.right)
    {
      var e :| e in rest;
      MergeEntailed(ir, leaves, forest.root, e.left, e.right);
      assert Edge(g, e.left, e.right);
      MergeMirrors(forest.root, g, g, e.left, e.right);
      forest.Union(e.left, e.right);
      rest := rest - {e};
    }
    forest.SameKeys();
  }

  ghost predicate GraphGrows(g: Graph, h: Graph) {
    forall x: nat, y: nat | Edge(g, x, y) :: Edge(h, x, y)
  }

  /** The history tells how the graph and its classes came about. */
  ghost predicate UpToDate(ir: Dag, h: History, leaves: set<Equality>, g: Graph, root: Roots) {
    Tells(ir, h, leaves, g) && h.roots != [] && Last(h) == root
  }

  /** Which pairs a scan of the applications has checked. */
  ghost predicate Scanned(ir: Dag, root: Roots, apps: seq<nat>, i: nat, j: nat) {
    forall a: nat, b: nat | a < b < |apps| && (a < i || (a == i && b < j)) :: PairClosed(ir, root, apps[a], apps[b])
  }

  /** One pass over all pairs, merging what has become congruent. */
  method Pass(ir: Dag, leaves: set<Equality>, g: Graph, forest: Forest, apps: seq<nat>, ghost before: History)
    returns (h: Graph, changed: bool, ghost after: History)
    requires Ordered(ir) && forest.Valid() && Entailed(ir, leaves, forest.root) && Mirrors(forest.root, g)
    requires ChildrenClosed(ir, forest.parent.Keys)
    requires forall x | x in apps :: x in forest.parent && IsApplication(ir, x)
    requires UpToDate(ir, before, leaves, g, forest.root) && before.roots != []
    modifies forest
    ensures UpToDate(ir, after, leaves, h, forest.root) && after.roots != [] && after.roots[0] == before.roots[0]
    ensures forest.Valid() && forest.parent.Keys == old(forest.parent.Keys)
    ensures Entailed(ir, leaves, forest.root) && Mirrors(forest.root, h)
    ensures GraphGrows(g, h)
    ensures changed ==> forest.root.Values < old(forest.root).Values
    ensures !changed ==> forest.root == old(forest.root) && h == g && Scanned(ir, forest.root, apps, |apps|, 0)
  {
    hide Entailed, Mirrors, PairClosed, ChildrenClosed, IsForest, UpToDate;
    h, changed, after := g, false, before;
    for i := 0 to |apps|
      invariant forest.Valid() && forest.parent.Keys == old(forest.parent.Keys)
      invariant Entailed(ir, leaves, forest.root) && Mirrors(forest.root, h) && GraphGrows(g, h)
      invariant UpToDate(ir, after, leaves, h, forest.root) && after.roots != [] && after.roots[0] == before.roots[0]
      invariant changed ==> forest.root.Values < old(forest.root).Values
      invariant !changed ==> forest.root == old(forest.root) && h == g && Scanned(ir, forest.root, apps, i, 0)
    {
      for j := i + 1 to |apps|
        invariant forest.Valid() && forest.parent.Keys == old(forest.parent.Keys)
        invariant Entailed(ir, leaves, forest.root) && Mirrors(forest.root, h) && GraphGrows(g, h)
        invariant UpToDate(ir, after, leaves, h, forest.root) && after.roots != [] && after.roots[0] == before.roots[0]
        invariant changed ==> forest.root.Values < old(forest.root).Values
        invariant !changed ==> forest.root == old(forest.root) && h == g && Scanned(ir, forest.root, apps, i, j)
      {
        var merged;
        h, merged, after := TryPair(ir, leaves, h, forest, apps[i], apps[j], after);
        changed := changed || merged;
      }
    }
  }

  /** Merge one pair of applications when their arguments have been merged. */
  method TryPair(ir: Dag, leaves: set<Equality>, g: Graph, forest: Forest, x: nat, y: nat, ghost before: History)
    returns (h: Graph, merged: bool, ghost after: History)
    requires Ordered(ir) && forest.Valid() && Entailed(ir, leaves, forest.root) && Mirrors(forest.root, g)
    requires ChildrenClosed(ir, forest.parent.Keys)
    requires x in forest.parent && y in forest.parent && IsApplication(ir, x) && IsApplication(ir, y)
    requires UpToDate(ir, before, leaves, g, forest.root) && before.roots != []
    modifies forest
    ensures UpToDate(ir, after, leaves, h, forest.root) && after.roots != [] && after.roots[0] == before.roots[0]
    ensures forest.Valid() && forest.parent.Keys == old(forest.parent.Keys)
    ensures Entailed(ir, leaves, forest.root) && Mirrors(forest.root, h)
    ensures GraphGrows(g, h)
    ensures merged ==> forest.root.Values < old(forest.root).Values
    ensures !merged ==> forest.root == old(forest.root) && h == g && PairClosed(ir, forest.root, x, y)
  {
    hide Entailed, Mirrors, UpToDate;
    h, merged, after := g, false, before;
    var a := forest.Find(x);
    var b := forest.Find(y);
    if a == b || !SameSymbol(ir, x, y) {
      return;
    }
    var equal := ArgumentsMerged(ir, forest, x, y);
    if !equal {
      return;
    }
    CongruentEntailed(ir, leaves, forest.root, x, y);
    MergeEntailed(ir, leaves, forest.root, x, y);
    h, merged := Link(g, x, y), true;
    MirrorsMore(forest.root, g, x, y);
    RerootedShrinks(forest.root, x, y);
    ghost var next := Rerooted(forest.root, forest.root[x], forest.root[y]);
    MergeRecorded(ir, before, leaves, g, forest.root, next, x, y);
    after := History(before.roots + [next], before.edges + [Equality(x, y)]);
    forest.Union(x, y);
  }

  lemma {:induction false} MirrorsMore(root: Roots, g: Graph, x: nat, y: nat)
    requires Mirrors(root, g) && x in root && y in root
    ensures Mirrors(Rerooted(root, root[x], root[y]), Link(g, x, y)) && GraphGrows(g, Link(g, x, y))
  {
    hide Connected, Link;
    LinkEdges(g, x, y);
    MergeMirrors(root, g, Link(g, x, y), x, y);
  }

  lemma {:induction false} MergeRecorded(ir: Dag, before: History, leaves: set<Equality>, g: Graph, root: Roots, next: Roots, x: nat, y: nat)
    requires UpToDate(ir, before, leaves, g, root) && before.roots != [] && SameSymbol(ir, x, y) && x in root && y in root && root[x] != root[y]
    requires forall k | 0 <= k < |ir[x].children| :: Same(root, ir[x].children[k], ir[y].children[k])
    requires next == Rerooted(root, root[x], root[y])
    ensures UpToDate(ir, History(before.roots + [next], before.edges + [Equality(x, y)]), leaves, Link(g, x, y), next)
  {
    hide Tells;
    TellsMore(ir, before, leaves, g, Equality(x, y), next);
  }

  lemma {:induction false} RerootedShrinks(root: Roots, x: nat, y: nat)
    requires x in root && y in root && root[x] != root[y]
    ensures Rerooted(root, root[x], root[y]).Values < root.Values
  {
    var next := Rerooted(root, root[x], root[y]);
    forall v | v in next.Values ensures v in root.Values && v != root[x] {
      var z :| z in next && next[z] == v;
      assert root[z] in root.Values && root[y] in root.Values;
    }
    assert root[x] in root.Values && root[x] !in next.Values;
  }

  /** Add congruence edges until nothing changes.  At exit the classes are the
      connected components of the graph and the least congruence on the collected terms. */
  method AugmentCongruenceEdges(ir: Dag, leaves: set<Equality>, g: Graph, lhs: nat, rhs: nat)
    returns (h: Graph, ghost root: Roots, ghost history: History)
    requires Ordered(ir) && InRange(ir, leaves) && LeafGraph(g, leaves) && lhs < |ir| && rhs < |ir|
    ensures forall x | x in root :: x < |ir|
    ensures forall x: nat, y: nat | Edge(h, x, y) :: Same(root, x, y)
    ensures lhs in root && rhs in root && forall e | e in leaves :: Same(root, e.left, e.right)
    ensures ChildrenClosed(ir, root.Keys)
    ensures forall x: nat, y: nat | x in root && y in root :: PairClosed(ir, root, x, y)
    ensures Entailed(ir, leaves, root)
    ensures Symmetric(h) && forall x: nat, y: nat | x in root :: Connected(h, x, y) <==> Same(root, x, y)
    ensures UpToDate(ir, history, leaves, h, root) && history.roots != [] && |history.edges| < |root.Keys|
    ensures forall terms | Holds(ir, terms, leaves, lhs, rhs) :: root.Keys <= terms
  {
    hide Entailed, Mirrors, PairClosed, ChildrenClosed, IsForest, Scanned, UpToDate, Contains, Holds, LeafGraph, GraphGrows, Symmetric;
    var starts := Starts(leaves, lhs, rhs);
    var forest, apps := Collect(ir, starts);
    ghost var keys := forest.parent.Keys;
    MergeLeaves(ir, leaves, g, forest);
    GrowsSelf(g);
    h, history := g, History([forest.root], []);
    ghost var first := forest.root;
    var changed := true;
    while changed
      invariant forest.Valid() && fresh(forest) && forest.parent.Keys == forest.root.Keys
      invariant forall x | x in forest.parent :: x < |ir|
      invariant lhs in forest.parent && rhs in forest.parent && ChildrenClosed(ir, forest.parent.Keys)
      invariant forall x | x in forest.parent && IsApplication(ir, x) :: x in apps
      invariant forall x | x in apps :: x in forest.parent && IsApplication(ir, x)
      invariant Entailed(ir, leaves, forest.root) && Mirrors(forest.root, h) && GraphGrows(g, h)
      invariant forest.parent.Keys == keys == first.Keys
      invariant UpToDate(ir, history, leaves, h, forest.root) && history.roots != [] && history.roots[0] == first
      invariant !changed ==> Scanned(ir, forest.root, apps, |apps|, 0)
      decreases forest.root.Values, changed
    {
      ghost var earlier := h;
      h, changed, history := Pass(ir, leaves, h, forest, apps, history);
      GrowsFurther(g, earlier, h);
      forest.SameKeys();
    }
    root := forest.root;
    Finish(ir, leaves, g, h, root, apps);
    FewEdges(ir, history, leaves, h, root, lhs);
    forall terms | Holds(ir, terms, leaves, lhs, rhs) ensures root.Keys <= terms {
      StartsHeld(ir, terms, leaves, lhs, rhs, starts);
    }
  }

  lemma {:induction false} GrowsSelf(g: Graph)
    ensures GraphGrows(g, g)
  {
  }

  lemma {:induction false} GrowsFurther(g: Graph, h: Graph, k: Graph)
    requires GraphGrows(g, h) && GraphGrows(h, k)
    ensures GraphGrows(g, k)
  {
  }

  lemma {:induction false} StartsHeld(ir: Dag, terms: set<nat>, leaves: set<Equality>, lhs: nat, rhs: nat, starts: seq<nat>)
    requires Holds(ir, terms, leaves, lhs, rhs)
    requires forall x | x in starts :: x == lhs || x == rhs || exists e :: e in leaves && (x == e.left || x == e.right)
    ensures Contains(ir, terms, starts)
  {
    hide ChildrenClosed;
  }

  /** The terms include both sides, the leaves' sides, and all below. */
  ghost predicate Holds(ir: Dag, terms: set<nat>, leaves: set<Equality>, lhs: nat, rhs: nat) {
    && ChildrenClosed(ir, terms) && lhs in terms && rhs in terms
    && forall e | e in leaves :: e.left in terms && e.right in terms
  }

  lemma {:induction false} FewEdges(ir: Dag, h: History, leaves: set<Equality>, g: Graph, root: Roots, lhs: nat)
    requires UpToDate(ir, h, leaves, g, root) && h.roots != [] && root.Keys == h.roots[0].Keys && lhs in root
    ensures |h.edges| < |root.Keys|
  {
    FewMerges(ir, h, |h.edges|);
    ClassesCounted(h.roots[0]);
    assert root[lhs] in root.Values;
    Counted({root[lhs]}, root.Values);
  }

  method Starts(leaves: set<Equality>, lhs: nat, rhs: nat) returns (starts: seq<nat>)
    ensures lhs in starts && rhs in starts
    ensures forall e | e in leaves :: e.left in starts && e.right in starts
    ensures forall x | x in starts :: x == lhs || x == rhs || exists e :: e in leaves && (x == e.left || x == e.right)
  {
    starts := [lhs, rhs];
    var rest := leaves;
    while rest != {}
      invariant rest <= leaves && lhs in starts && rhs in starts
      invariant forall e | e in leaves - rest :: e.left in starts && e.right in starts
      invariant forall x | x in starts :: x == lhs || x == rhs || exists e :: e in leaves && (x == e.left || x == e.right)
    {
      var e :| e in rest;
      starts, rest := starts + [e.left, e.right], rest - {e};
    }
  }

  /** What the exit of the fixpoint amounts to. */
  lemma {:induction false} Finish(ir: Dag, leaves: set<Equality>, g: Graph, h: Graph, root: Roots, apps: seq<nat>)
    requires Mirrors(root, h) && GraphGrows(g, h) && LeafGraph(g, leaves)
    requires Scanned(ir, root, apps, |apps|, 0) && forall x | x in root && IsApplication(ir, x) :: x in apps
    ensures forall e | e in leaves :: Same(root, e.left, e.right)
    ensures forall x: nat, y: nat | Edge(h, x, y) :: Same(root, x, y)
    ensures forall x: nat, y: nat | x in root && y in root :: PairClosed(ir, root, x, y)
    ensures Symmetric(h) && forall x: nat, y: nat | x in root :: Connected(h, x, y) <==> Same(root, x, y)
  {
    forall e | e in leaves ensures Same(root, e.left, e.right) {
      assert Edge(g, e.left, e.right);
    }
    forall x: nat, y: nat | x in root && y in root ensures PairClosed(ir, root, x, y) {
    }
    forall x: nat, y: nat | x in root ensures Connected(h, x, y) <==> Same(root, x, y) {
      ComponentsAreClasses(h, root, x, y);
    }
  }
}
