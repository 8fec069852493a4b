/** How the closure got where it is: the classes after every merge, and the congruence edge that caused it. */
module ClosureHistory {
  import opened Terms
  import opened Congruence
  import opened EqualityGraph
  import opened UnionFind

  type Roots = map<nat, nat>

  ghost predicate Same(root: Roots, x: nat, y: nat) {
    x in root && y in root && root[x] == root[y]
  }

  /** One more class list than edges: edge `i` leads from list `i` to list `i + 1`. */
  datatype History = History(roots: seq<Roots>, edges: seq<Equality>)

  predicate Joins(e: Equality, x: nat, y: nat) { (e.left == x && e.right == y) || (e.left == y && e.right == x) }

  ghost predicate ArgumentsSame(ir: Dag, root: Roots, x: nat, y: nat)
    requires SameSymbol(ir, x, y)
  {
    forall k | 0 <= k < |ir[x].children| :: Same(root, ir[x].children[k], ir[y].children[k])
  }

  /** An edge between two classes whose terms were congruent already. */
  ghost predicate Merged(ir: Dag, before: Roots, after: Roots, e: Equality) {
    && e.left in before && e.right in before && before[e.left] != before[e.right]
    && after == Rerooted(before, before[e.left], before[e.right])
    && SameSymbol(ir, e.left, e.right) && ArgumentsSame(ir, before, e.left, e.right)
  }

  ghost predicate Chronicle(ir: Dag, h: History) {
    && |h.roots| == |h.edges| + 1
    && forall i: nat | i < |h.edges| :: Merged(ir, h.roots[i], h.roots[i + 1], h.edges[i])
  }

  ghost predicate IsLeaf(leaves: set<Equality>, x: nat, y: nat) { exists e :: e in leaves && Joins(e, x, y) }

  /** The edge was there from the start, or was added by one of the merges. */
  ghost predicate Explained(h: History, leaves: set<Equality>, x: nat, y: nat) {
    || IsLeaf(leaves, x, y)
    || (exists i: nat :: i < |h.edges| && Joins(h.edges[i], x, y))
  }

  /** The history of a graph: it explains the edges, and starts from the leaves' classes. */
  ghost predicate Tells(ir: Dag, h: History, leaves: set<Equality>, g: Graph) {
    && Chronicle(ir, h)
    && (forall x: nat, y: nat | Edge(g, x, y) :: Explained(h, leaves, x, y))
    && (forall e | e in leaves :: Same(h.roots[0], e.left, e.right))
  }

  /** The classes now. */
  ghost function Last(h: History): Roots
    requires h.roots != []
  {
    h.roots[|h.roots| - 1]
  }

  /** One more merge, and its edge. */
  lemma {:induction false} TellsMore(ir: Dag, h: History, leaves: set<Equality>, g: Graph, e: Equality, after: Roots)
    requires Tells(ir, h, leaves, g) && Merged(ir, Last(h), after, e)
    ensures Tells(ir, History(h.roots + [after], h.edges + [e]), leaves, Link(g, e.left, e.right))
  {
    hide Merged;
    var more := History(h.roots + [after], h.edges + [e]);
    LinkEdges(g, e.left, e.right);
    forall x: nat, y: nat | Edge(Link(g, e.left, e.right), x, y) ensures Explained(more, leaves, x, y) {
      if Edge(g, x, y) {
        assert Explained(h, leaves, x, y);
        if i: nat :| i < |h.edges| && Joins(h.edges[i], x, y) {
          assert Joins(more.edges[i], x, y);
        }
      } else {
        assert Joins(more.edges[|h.edges|], x, y);
      }
    }
    forall i: nat | i < |more.edges| ensures Merged(ir, more.roots[i], more.roots[i + 1], more.edges[i]) {
      if i < |h.edges| {
        assert Merged(ir, h.roots[i], h.roots[i + 1], h.edges[i]);
      }
    }
  }

  /** Classes only grow. */
  lemma {:induction false} Coarser(ir: Dag, h: History, i: nat, j: nat, x: nat, y: nat)
    requires Chronicle(ir, h) && i <= j <= |h.edges| && Same(h.roots[i], x, y)
    ensures Same(h.roots[j], x, y)
    decreases j
  {
    if i < j {
      Coarser(ir, h, i, j - 1, x, y);
      assert Merged(ir, h.roots[j - 1], h.roots[j - 1 + 1], h.edges[j - 1]);
    }
  }

  /** An edge of the graph inside a class of the next list is in one of this list, or is the merging edge itself. */
  lemma {:induction false} EdgeAt(ir: Dag, h: History, leaves: set<Equality>, g: Graph, i: nat, x: nat, y: nat)
    requires Tells(ir, h, leaves, g) && i < |h.edges| && Edge(g, x, y) && Same(h.roots[i + 1], x, y)
    ensures Same(h.roots[i], x, y) || Joins(h.edges[i], x, y)
  {
    assert Explained(h, leaves, x, y);
    if e :| e in leaves && Joins(e, x, y) {
      Coarser(ir, h, 0, i, e.left, e.right);
    } else {
      var j: nat :| j < |h.edges| && Joins(h.edges[j], x, y);
      assert Merged(ir, h.roots[j], h.roots[j + 1], h.edges[j]);
      if j < i {
        assert Same(h.roots[j + 1], h.edges[j].left, h.edges[j].right);
        Coarser(ir, h, j + 1, i, h.edges[j].left, h.edges[j].right);
      } else if j > i {
        Coarser(ir, h, i + 1, j, x, y);
      }
    }
  }

  ghost predicate Simple(p: Path) { forall i: nat, j: nat | i < j < |p| :: p[i] != p[j] }

  /** The steps of the path from one position to another stay inside classes. */
  ghost predicate StepsInside(root: Roots, p: Path, lo: nat, hi: nat)
    requires hi < |p|
  {
    forall k: nat | lo <= k < hi :: Same(root, p[k], p[k + 1])
  }

  lemma {:induction false} StepsRelate(root: Roots, p: Path, lo: nat, hi: nat)
    requires lo <= hi < |p| && StepsInside(root, p, lo, hi) && p[lo] in root
    ensures Same(root, p[lo], p[hi])
    decreases hi
  {
    if lo < hi {
      StepsRelate(root, p, lo, hi - 1);
    }
  }

  /** A simple path between terms of one class never uses the edge that merged other classes. */
  lemma {:induction false} NoBridge(ir: Dag, h: History, leaves: set<Equality>, g: Graph, i: nat, p: Path)
    requires Tells(ir, h, leaves, g) && i < |h.edges| && p != [] && Simple(p)
    requires forall k: nat | k + 1 < |p| :: Edge(g, p[k], p[k + 1])
    requires StepsInside(h.roots[i + 1], p, 0, |p| - 1) && Same(h.roots[i], p[0], p[|p| - 1])
    ensures StepsInside(h.roots[i], p, 0, |p| - 1)
  {
    hide Merged, Explained;
    var root, e := h.roots[i], h.edges[i];
    forall k: nat | k < |p| - 1 ensures Same(root, p[k], p[k + 1]) || Joins(e, p[k], p[k + 1]) {
      EdgeAt(ir, h, leaves, g, i, p[k], p[k + 1]);
    }
    if m: nat :| m < |p| - 1 && !Same(root, p[m], p[m + 1]) {
      forall k: nat | k < |p| - 1 && k != m ensures Same(root, p[k], p[k + 1]) {
        OtherStep(p, e, m, k);
      }
      StepsRelate(root, p, 0, m);
      StepsFromEnd(ir, h, i, p, m);
    }
  }

  lemma {:induction false} OtherStep(p: Path, e: Equality, m: nat, k: nat)
    requires Simple(p) && m + 1 < |p| && k + 1 < |p| && m != k && Joins(e, p[m], p[m + 1])
    ensures !Joins(e, p[k], p[k + 1])
  {
  }

  lemma {:induction false} StepsFromEnd(ir: Dag, h: History, i: nat, p: Path, m: nat)
    requires i < |h.roots| && m + 1 < |p| && StepsInside(h.roots[i], p, m + 1, |p| - 1)
    requires Same(h.roots[i], p[0], p[m]) && Same(h.roots[i], p[0], p[|p| - 1])
    ensures Same(h.roots[i], p[m], p[m + 1])
  {
    if m + 1 < |p| - 1 {
      assert Same(h.roots[i], p[m + 1], p[m + 1 + 1]);
      StepsRelate(h.roots[i], p, m + 1, |p| - 1);
    }
  }

  /** So a simple path in the final graph between terms that were in one class at some time was there at that time. */
  lemma {:induction false} PathWasThere(ir: Dag, h: History, leaves: set<Equality>, g: Graph, i: nat, j: nat, p: Path)
    requires Tells(ir, h, leaves, g) && i <= j <= |h.edges| && p != [] && Simple(p)
    requires forall k: nat | k + 1 < |p| :: Edge(g, p[k], p[k + 1])
    requires StepsInside(h.roots[j], p, 0, |p| - 1) && Same(h.roots[i], p[0], p[|p| - 1])
    ensures StepsInside(h.roots[i], p, 0, |p| - 1)
    decreases j
  {
    hide Tells, Simple, StepsInside;
    if i < j {
      Coarser2(ir, h, leaves, g, i, j - 1, p[0], p[|p| - 1]);
      NoBridge(ir, h, leaves, g, j - 1, p);
      PathWasThere(ir, h, leaves, g, i, j - 1, p);
    }
  }

  lemma {:induction false} Coarser2(ir: Dag, h: History, leaves: set<Equality>, g: Graph, i: nat, j: nat, x: nat, y: nat)
    requires Tells(ir, h, leaves, g) && i <= j <= |h.edges| && Same(h.roots[i], x, y)
    ensures |h.roots| == |h.edges| + 1 && Same(h.roots[j], x, y)
  {
    Coarser(ir, h, i, j, x, y);
  }

  /** An edge within a class of list `i` is a leaf or was added before. */
  lemma {:induction false} EdgeBefore(ir: Dag, h: History, leaves: set<Equality>, g: Graph, i: nat, x: nat, y: nat)
    requires Tells(ir, h, leaves, g) && i <= |h.edges| && Edge(g, x, y) && Same(h.roots[i], x, y)
    ensures IsLeaf(leaves, x, y) || exists j: nat :: j < i && Joins(h.edges[j], x, y)
  {
    assert Explained(h, leaves, x, y);
    if !IsLeaf(leaves, x, y) {
      var j: nat :| j < |h.edges| && Joins(h.edges[j], x, y);
      assert Merged(ir, h.roots[j], h.roots[j + 1], h.edges[j]);
      if j >= i {
        Coarser(ir, h, i, j, x, y);
      }
    }
  }

  lemma {:induction false} Shortcut(g: Graph, p: Path, s: nat, t: nat, i: nat, j: nat) returns (q: Path)
    requires IsPath(g, p, s, t) && i < j < |p| && p[i] == p[j]
    ensures IsPath(g, q, s, t) && |q| < |p|
  {
    q := p[..i] + p[j..];
    forall k: nat | k + 1 < |q| ensures Edge(g, q[k], q[k + 1]) {
      var m := if k < i then k else k - i + j;
      assert Edge(g, p[m], p[m + 1]);
      assert q[k] == p[m];
      assert q[k + 1] == if k + 1 == i then p[j] else p[m + 1];
    }
  }

  /** A shortest path meets no term twice. */
  lemma {:induction false} ShortestSimple(g: Graph, p: Path, s: nat, t: nat)
    requires IsPath(g, p, s, t) && forall q: Path | IsPath(g, q, s, t) :: |p| <= |q|
    ensures Simple(p)
  {
    hide IsPath;
    if i: nat, j: nat :| i < j < |p| && p[i] == p[j] {
      var q := Shortcut(g, p, s, t, i, j);
    }
  }

  /** Each merge uses up a class. */
  lemma {:induction false} FewMerges(ir: Dag, h: History, j: nat)
    requires Chronicle(ir, h) && j <= |h.edges|
    ensures |h.roots[j].Values| + j <= |h.roots[0].Values|
  {
    if j > 0 {
      FewMerges(ir, h, j - 1);
      assert Merged(ir, h.roots[j - 1], h.roots[j - 1 + 1], h.edges[j - 1]);
      MergeShrinks(h.roots[j - 1], h.edges[j - 1].left, h.edges[j - 1].right);
    }
  }

  lemma {:induction false} MergeShrinks(root: Roots, x: nat, y: nat)
    requires x in root && y in root && root[x] != root[y]
    ensures |Rerooted(root, root[x], root[y]).Values| < |root.Values|
  {
    var next := Rerooted(root, root[x], root[y]);
    forall v | v in next.Values ensures v in root.Values - {root[x]} {
      var z :| z in next && next[z] == v;
      assert root[z] in root.Values && root[y] in root.Values;
    }
    assert next.Values <= root.Values - {root[x]};
    assert root[x] in root.Values;
    Counted(next.Values, root.Values - {root[x]});
  }

  lemma {:induction false} Counted(a: set<nat>, b: set<nat>)
    requires a <= b
    ensures |a| <= |b|
  {
    assert b == a + (b - a);
  }

  /** There are no more classes than terms. */
  lemma {:induction false} ClassesCounted(root: Roots)
    ensures |root.Values| <= |root.Keys|
  {
    if root != map[] {
      var x :| x in root;
      var rest := root - {x};
      ClassesCounted(rest);
      assert root.Keys == rest.Keys + {x};
      forall v | v in root.Values ensures v in rest.Values + {root[x]} {
        var z :| z in root && root[z] == v;
        assert z != x ==> z in rest && rest[z] == v;
      }
      Counted(root.Values, rest.Values + {root[x]});
    }
  }

  /** The pair was in one class early enough for a search this deep. */
  ghost predicate ClassInTime(h: History, u: nat, v: nat, depth: nat, cap: nat) {
    exists i: nat :: i < |h.roots| && Same(h.roots[i], u, v) && depth + 2 * i + 1 <= cap
  }

  /** Or it was merged by an edge early enough. */
  ghost predicate EdgeInTime(h: History, u: nat, v: nat, depth: nat, cap: nat) {
    exists j: nat :: j < |h.edges| && Joins(h.edges[j], u, v) && depth + 2 * j + 2 <= cap
  }

  ghost predicate InTime(h: History, u: nat, v: nat, depth: nat, cap: nat) {
    ClassInTime(h, u, v, depth, cap) || EdgeInTime(h, u, v, depth, cap)
  }

  /** The arguments of a pair merged in time were in one class in time, one level deeper. */
  lemma {:induction false} ArgumentsInTime(ir: Dag, h: History, u: nat, v: nat, depth: nat, cap: nat)
    requires Chronicle(ir, h) && EdgeInTime(h, u, v, depth, cap)
    ensures SameSymbol(ir, u, v)
    ensures forall k | 0 <= k < |ir[u].children| :: ClassInTime(h, ir[u].children[k], ir[v].children[k], depth + 1, cap)
  {
    var j: nat :| j < |h.edges| && Joins(h.edges[j], u, v) && depth + 2 * j + 2 <= cap;
    assert Merged(ir, h.roots[j], h.roots[j + 1], h.edges[j]);
    forall k | 0 <= k < |ir[u].children| ensures ClassInTime(h, ir[u].children[k], ir[v].children[k], depth + 1, cap) {
      assert Same(h.roots[j], ir[u].children[k], ir[v].children[k]);
    }
  }

  /** The steps of a shortest path between terms that were in one class in time are leaves, or
      were merged in time one level deeper. */
  lemma {:induction false} StepsInTime(ir: Dag, h: History, leaves: set<Equality>, g: Graph, p: Path, u: nat, v: nat, depth: nat, cap: nat)
    requires Tells(ir, h, leaves, g) && IsPath(g, p, u, v) && Simple(p) && ClassInTime(h, u, v, depth, cap)
    requires forall k: nat | k + 1 < |p| :: Same(h.roots[|h.edges|], p[k], p[k + 1])
    ensures forall k: nat | k + 1 < |p| ::
              IsLeaf(leaves, p[k], p[k + 1]) ||
              (EdgeInTime(h, p[k], p[k + 1], depth + 1, cap) && EdgeInTime(h, p[k], p[k + 1], depth, cap))
  {
    hide Tells, Simple, IsPath;
    PathEnds(g, p, u, v);
    HistoryShape(ir, h, leaves, g);
    var i: nat :| i < |h.roots| && Same(h.roots[i], u, v) && depth + 2 * i + 1 <= cap;
    PathWasThere(ir, h, leaves, g, i, |h.edges|, p);
    forall k: nat | k + 1 < |p|
      ensures IsLeaf(leaves, p[k], p[k + 1]) ||
              (EdgeInTime(h, p[k], p[k + 1], depth + 1, cap) && EdgeInTime(h, p[k], p[k + 1], depth, cap))
    {
      assert Edge(g, p[k], p[k + 1]) && Same(h.roots[i], p[k], p[k + 1]);
      EdgeBefore(ir, h, leaves, g, i, p[k], p[k + 1]);
    }
  }

  lemma {:induction false} PathEnds(g: Graph, p: Path, u: nat, v: nat)
    requires IsPath(g, p, u, v)
    ensures p != [] && p[0] == u && p[|p| - 1] == v && forall k: nat | k + 1 < |p| :: Edge(g, p[k], p[k + 1])
  {
  }

  lemma {:induction false} HistoryShape(ir: Dag, h: History, leaves: set<Equality>, g: Graph)
    requires Tells(ir, h, leaves, g)
    ensures |h.roots| == |h.edges| + 1
  {
  }
}
