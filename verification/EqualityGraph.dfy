/** The graph of known equalities: paths, connectivity and breadth-first search. */
module EqualityGraph {
  type Graph = map<nat, seq<nat>>
  type Path = seq<nat>

  ghost predicate Edge(g: Graph, x: nat, y: nat) {
    x in g && y in g[x]
  }

  ghost predicate Symmetric(g: Graph) {
    forall x: nat, y: nat | Edge(g, x, y) :: Edge(g, y, x)
  }

  ghost predicate IsPath(g: Graph, p: Path, s: nat, t: nat) {
    && |p| > 0 && p[0] == s && p[|p| - 1] == t
    && forall k: nat | k + 1 < |p| :: Edge(g, p[k], p[k + 1])
  }

  ghost predicate Connected(g: Graph, s: nat, t: nat) {
    exists p: Path :: IsPath(g, p, s, t)
  }

  /** `adj[x].push_back(y)` in both directions. */
  function Link(g: Graph, x: nat, y: nat): Graph {
    Arrow(Arrow(g, x, y), y, x)
  }

  function Arrow(g: Graph, x: nat, y: nat): Graph {
    g[x := (if x in g then g[x] else []) + [y]]
  }

  lemma {:induction false} LinkEdges(g: Graph, x: nat, y: nat)
    ensures forall a: nat, b: nat :: Edge(Link(g, x, y), a, b) <==> Edge(g, a, b) || (a == x && b == y) || (a == y && b == x)
  {
  }

  lemma {:induction false} ConnectedSelf(g: Graph, x: nat)
    ensures Connected(g, x, x)
  {
    assert IsPath(g, [x], x, x);
  }

  lemma {:induction false} ConnectedEdge(g: Graph, x: nat, y: nat)
    requires Edge(g, x, y)
    ensures Connected(g, x, y)
  {
    assert IsPath(g, [x, y], x, y);
  }

  lemma {:induction false} ConnectedTransitive(g: Graph, x: nat, y: nat, z: nat)
    requires Connected(g, x, y) && Connected(g, y, z)
    ensures Connected(g, x, z)
  {
    var p: Path :| IsPath(g, p, x, y);
    var q: Path :| IsPath(g, q, y, z);
    var r := p + q[1..];
    forall k: nat | k + 1 < |r| ensures Edge(g, r[k], r[k + 1]) {
      if k + 1 < |p| {
        assert Edge(g, p[k], p[k + 1]);
      } else {
        var j := k + 1 - |p|;
        assert r[k] == q[j] && r[k + 1] == q[j + 1];
        assert Edge(g, q[j], q[j + 1]);
      }
    }
    assert IsPath(g, r, x, z);
  }

  lemma {:induction false} ConnectedGrows(g: Graph, h: Graph, x: nat, y: nat)
    requires Connected(g, x, y) && forall a: nat, b: nat | Edge(g, a, b) :: Edge(h, a, b)
    ensures Connected(h, x, y)
  {
    var p: Path :| IsPath(g, p, x, y);
    assert IsPath(h, p, x, y);
  }

  function Nodes(g: Graph, s: nat): set<nat> {
    {s} + set x, y | x in g && y in g[x] :: y
  }

  /** Levels count edges from the source and never decrease along the queue. */
  ghost predicate Layered(q: seq<nat>, level: map<nat, nat>, h: nat, next: nat) {
    && (forall x :: x in level <==> x in q)
    && (forall i: nat, j: nat | i <= j < |q| :: level[q[i]] <= level[q[j]])
    && (forall i: nat | i < |q| && h < |q| :: level[q[i]] <= level[q[h]] + next)
  }

  /** A node other than the source was discovered from one level above. */
  ghost predicate Discovered(g: Graph, s: nat, prev: map<nat, nat>, level: map<nat, nat>, x: nat) {
    x in level && if x == s then level[x] == 0 else
    x in prev && prev[x] in level && level[x] == level[prev[x]] + 1 && Edge(g, prev[x], x)
  }

  ghost predicate Tree(g: Graph, s: nat, prev: map<nat, nat>, level: map<nat, nat>) {
    && s in level
    && forall x {:trigger Discovered(g, s, prev, level, x)} | x in level :: Discovered(g, s, prev, level, x)
  }

  ghost predicate Expanded(g: Graph, level: map<nat, nat>, x: nat) {
    x in level && forall y: nat | Edge(g, x, y) :: y in level && level[y] <= level[x] + 1
  }

  /** `q[..h]` is expanded; everything seen is queued once. */
  ghost predicate IsSearch(g: Graph, s: nat, q: seq<nat>, h: nat, prev: map<nat, nat>, level: map<nat, nat>) {
    && h <= |q| && (forall i: nat, j: nat | i < j < |q| :: q[i] != q[j])
    && Layered(q, level, h, 1) && Tree(g, s, prev, level)
    && (forall i: nat | i < h :: Expanded(g, level, q[i]))
    && level.Keys <= Nodes(g, s) && |q| == |level.Keys|
  }

  /** Any path leaves the expanded part at a node no farther than its position. */
  lemma {:induction false} Frontier(g: Graph, s: nat, q: seq<nat>, h: nat, prev: map<nat, nat>, level: map<nat, nat>, p: Path, t: nat, k: nat)
    requires IsSearch(g, s, q, h, prev, level) && IsPath(g, p, s, t) && k < |p|
    ensures (p[k] in level && level[p[k]] <= k) ||
            (h < |q| && level[q[h]] < k)
    decreases k
  {
    if k == 0 {
      assert Discovered(g, s, prev, level, s);
    } else {
      Frontier(g, s, q, h, prev, level, p, t, k - 1);
      var x := p[k - 1];
      assert Edge(g, p[k - 1], p[k - 1 + 1]);
      if x in level && level[x] <= k - 1 {
        var i :| 0 <= i < |q| && q[i] == x;
        if i < h {
          assert Expanded(g, level, q[i]);
        } else {
          assert level[q[h]] <= level[q[i]];
        }
      }
    }
  }

  lemma {:induction false} SearchStart(g: Graph, s: nat)
    ensures IsSearch(g, s, [s], 0, map[], map[s := 0])
  {
  }

  lemma {:induction false} SearchBounded(g: Graph, s: nat, q: seq<nat>, h: nat, prev: map<nat, nat>, level: map<nat, nat>)
    requires IsSearch(g, s, q, h, prev, level)
    ensures h <= |q| <= |Nodes(g, s)|
  {
    SubsetCount(level.Keys, Nodes(g, s));
  }

  lemma {:induction false} SubsetCount(a: set<nat>, b: set<nat>)
    requires a <= b
    ensures |a| <= |b|
  {
    assert b == a + (b - a);
  }

  /** A finished search has seen everything that is connected. */
  lemma {:induction false} SearchFinished(g: Graph, s: nat, q: seq<nat>, prev: map<nat, nat>, level: map<nat, nat>, t: nat)
    requires IsSearch(g, s, q, |q|, prev, level) && Connected(g, s, t)
    ensures t in q
  {
    var p: Path :| IsPath(g, p, s, t);
    Frontier(g, s, q, |q|, prev, level, p, t, |p| - 1);
  }

  /** The head of the queue is as close as any path makes it. */
  lemma {:induction false} HeadIsClosest(g: Graph, s: nat, q: seq<nat>, h: nat, prev: map<nat, nat>, level: map<nat, nat>, p: Path)
    requires IsSearch(g, s, q, h, prev, level) && h < |q| && IsPath(g, p, s, q[h])
    ensures q[h] in level && level[q[h]] + 1 <= |p|
  {
    Frontier(g, s, q, h, prev, level, p, q[h], |p| - 1);
  }

  lemma {:induction false} SearchTree(g: Graph, s: nat, q: seq<nat>, h: nat, prev: map<nat, nat>, level: map<nat, nat>)
    requires IsSearch(g, s, q, h, prev, level)
    ensures Tree(g, s, prev, level) && forall x | x in q :: x in level
  {
  }

  lemma {:induction false} HeadSeen(g: Graph, s: nat, q: seq<nat>, h: nat, prev: map<nat, nat>, level: map<nat, nat>)
    requires IsSearch(g, s, q, h, prev, level) && h < |q|
    ensures q[h] in level
  {
  }

  /** Follow the predecessors back to the source. */
  method Retrace(g: Graph, s: nat, prev: map<nat, nat>, ghost level: map<nat, nat>, t: nat) returns (path: Path)
    requires Tree(g, s, prev, level) && t in level
    ensures IsPath(g, path, s, t) && |path| == level[t] + 1
  {
    path := [t];
    assert Discovered(g, s, prev, level, s);
    while path[0] != s
      invariant |path| > 0 && path[0] in level && |path| + level[path[0]] == level[t] + 1
      invariant IsPath(g, path, path[0], t)
      decreases level[path[0]]
    {
      assert Discovered(g, s, prev, level, path[0]);
      path := [prev[path[0]]] + path;
    }
  }

  /** A shortest path, or nothing when the terms are not connected. */
  method Bfs(g: Graph, s: nat, t: nat) returns (path: Path)
    ensures path == [] <==> !Connected(g, s, t)
    ensures path != [] ==> IsPath(g, path, s, t)
    ensures forall p: Path | IsPath(g, p, s, t) :: |path| <= |p|
  {
    hide IsSearch, Nodes, IsPath;
    var q: seq<nat> := [s];
    var h: nat := 0;
    var prev: map<nat, nat> := map[];
    ghost var level: map<nat, nat> := map[s := 0];
    SearchStart(g, s);
    SearchBounded(g, s, q, h, prev, level);
    while h < |q| && q[h] != t
      invariant IsSearch(g, s, q, h, prev, level) && h <= |q| <= |Nodes(g, s)|
      invariant t !in q[..h]
      decreases |Nodes(g, s)| - h
    {
      ghost var before := q;
      q, prev, level := Expand(g, s, q, h, prev, level);
      assert q[..h + 1] == before[..h] + [before[h]];
      h := h + 1;
      SearchBounded(g, s, q, h, prev, level);
    }
    if h == |q| {
      assert q[..h] == q;
      if Connected(g, s, t) {
        SearchFinished(g, s, q, prev, level, t);
        assert false;
      }
      return [];
    }
    SearchTree(g, s, q, h, prev, level);
    path := Retrace(g, s, prev, level, t);
    assert q[h] in q;
    forall p: Path | IsPath(g, p, s, t) ensures |path| <= |p| {
      HeadIsClosest(g, s, q, h, prev, level, p);
    }
  }

  /** Expand the head of the queue: unseen neighbours are appended one level further. */
  method Expand(g: Graph, s: nat, q: seq<nat>, h: nat, prev: map<nat, nat>, ghost level: map<nat, nat>)
    returns (q': seq<nat>, prev': map<nat, nat>, ghost level': map<nat, nat>)
    requires IsSearch(g, s, q, h, prev, level) && h < |q|
    ensures IsSearch(g, s, q', h + 1, prev', level')
    ensures q <= q'
  {
    hide IsSearch;
    q', prev', level' := q, prev, level;
    var x := q[h];
    HeadSeen(g, s, q, h, prev, level);
    if x in g {
      for k := 0 to |g[x]|
        invariant IsSearch(g, s, q', h, prev', level') && q <= q' && x in level'
        invariant Reached(g[x][..k], level', level'[x] + 1)
      {
        var y := g[x][k];
        assert Edge(g, x, y);
        if y !in q' {
          Discover(g, s, q', h, prev', level', y);
          q', prev', level' := q' + [y], prev'[y := x], level'[y := level'[x] + 1];
        } else {
          Seen(g, s, q', h, prev', level', y);
        }
        assert g[x][..k + 1] == g[x][..k] + [y];
      }
      assert g[x][..|g[x]|] == g[x];
    }
    Advance(g, s, q', h, prev', level');
  }

  predicate Reached(ys: seq<nat>, level: map<nat, nat>, bound: nat) {
    forall y | y in ys :: y in level && level[y] <= bound
  }

  lemma {:induction false} Seen(g: Graph, s: nat, q: seq<nat>, h: nat, prev: map<nat, nat>, level: map<nat, nat>, y: nat)
    requires IsSearch(g, s, q, h, prev, level) && h < |q| && y in q
    ensures y in level && q[h] in level && level[y] <= level[q[h]] + 1
  {
    var i :| 0 <= i < |q| && q[i] == y;
  }

  lemma {:induction false} Advance(g: Graph, s: nat, q: seq<nat>, h: nat, prev: map<nat, nat>, level: map<nat, nat>)
    requires IsSearch(g, s, q, h, prev, level) && h < |q| && q[h] in level
    requires q[h] in g ==> Reached(g[q[h]], level, level[q[h]] + 1)
    ensures IsSearch(g, s, q, h + 1, prev, level)
  {
    assert Expanded(g, level, q[h]);
    if h + 1 < |q| {
      assert level[q[h]] <= level[q[h + 1]];
    }
  }

  lemma {:induction false} Discover(g: Graph, s: nat, q: seq<nat>, h: nat, prev: map<nat, nat>, level: map<nat, nat>, y: nat)
    requires IsSearch(g, s, q, h, prev, level) && h < |q| && Edge(g, q[h], y) && y !in q
    ensures q[h] in level && y !in level && IsSearch(g, s, q + [y], h, prev[y := q[h]], level[y := level[q[h]] + 1])
  {
    var q', prev', level' := q + [y], prev[y := q[h]], level[y := level[q[h]] + 1];
    assert level'.Keys == level.Keys + {y};
    forall i: nat | i < h ensures Expanded(g, level', q'[i]) {
      assert Expanded(g, level, q[i]);
    }
    forall x | x in level' ensures Discovered(g, s, prev', level', x) {
      assert x != y ==> Discovered(g, s, prev, level, x);
    }
  }
}
