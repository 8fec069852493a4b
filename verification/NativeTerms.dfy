/** Dense numbering of a parser's expression graph: children first, each node once. */
module NativeTerms {
  import opened Basics
  import opened Terms

  /** A node of the parser's graph.  Let nodes stand for one of their children. */
  datatype Shape = Plain | Let | LetChain
  datatype Native = Native(shape: Shape, children: seq<nat>)
  type Graph = seq<Native>

  ghost predicate Closed(g: Graph) {
    forall n: nat, k: nat | n < |g| && k < |g[n].children| :: g[n].children[k] < |g|
  }

  /** What a let node stands for, one step. */
  function Step(g: Graph, n: nat): Option<nat>
    requires n < |g|
  {
    var c := g[n].children;
    if g[n].shape.Plain? || c == [] then None
    else if g[n].shape.LetChain? then Some(c[|c| - 1]) else Some(c[0])
  }

  lemma {:induction false} StepInRange(g: Graph, n: nat)
    requires Closed(g) && n < |g| && Step(g, n).Some?
    ensures Step(g, n).value < |g|
  {
  }

  /** The node reached after `k` let steps. */
  ghost function Steps(g: Graph, n: nat, k: nat): Option<nat>
    requires Closed(g) && n < |g|
    decreases k
  {
    if k == 0 then Some(n)
    else if Step(g, n).None? then None
    else StepInRange(g, n); Steps(g, Step(g, n).value, k - 1)
  }

  ghost predicate StandsFor(g: Graph, n: nat, m: nat)
    requires Closed(g) && n < |g|
  {
    exists k: nat :: Steps(g, n, k) == Some(m) && m < |g| && g[m].shape.Plain?
  }

  /** Follow let steps, remembering the nodes seen. */
  function ResolveFrom(g: Graph, n: nat, seen: set<nat>): (r: Option<nat>)
    requires Closed(g) && n < |g| && seen <= Below(|g|)
    ensures r.Some? ==> r.value < |g| && g[r.value].shape.Plain?
    decreases Below(|g|) - seen
  {
    if g[n].shape.Plain? then Some(n)
    else if n in seen || Step(g, n).None? then None
    else StepInRange(g, n); ResolveFrom(g, Step(g, n).value, seen + {n})
  }

  function Resolve(g: Graph, n: nat): (r: Option<nat>)
    requires Closed(g) && n < |g|
    ensures r.Some? ==> r.value < |g| && g[r.value].shape.Plain?
  {
    ResolveFrom(g, n, {})
  }

  lemma {:induction false} ResolveStep(g: Graph, n: nat, seen: set<nat>)
    requires Closed(g) && n < |g| && seen <= Below(|g|)
    ensures g[n].shape.Plain? ==> ResolveFrom(g, n, seen) == Some(n)
    ensures !g[n].shape.Plain? && (n in seen || Step(g, n).None?) ==> ResolveFrom(g, n, seen) == None
    ensures !g[n].shape.Plain? && n !in seen && Step(g, n).Some? ==>
      Step(g, n).value < |g| && ResolveFrom(g, n, seen) == ResolveFrom(g, Step(g, n).value, seen + {n})
  {
    if Step(g, n).Some? {
      StepInRange(g, n);
    }
  }

  method ResolveNode(g: Graph, start: nat) returns (r: Option<nat>)
    requires Closed(g) && start < |g|
    ensures r == Resolve(g, start)
  {
    hide ResolveFrom, Closed;
    var node: nat := start;
    var seen: set<nat> := {};
    while !g[node].shape.Plain?
      invariant node < |g| && seen <= Below(|g|) && ResolveFrom(g, node, seen) == Resolve(g, start)
      decreases Below(|g|) - seen
    {
      ResolveStep(g, node, seen);
      if node in seen || g[node].children == [] {
        return None;
      }
      seen := seen + {node};
      var c := g[node].children;
      node := if g[node].shape.LetChain? then c[|c| - 1] else c[0];
    }
    ResolveStep(g, node, seen);
    return Some(node);
  }

  lemma {:induction false} ResolvedStandsFor(g: Graph, n: nat, seen: set<nat>)
    requires Closed(g) && n < |g| && seen <= Below(|g|) && ResolveFrom(g, n, seen).Some?
    ensures StandsFor(g, n, ResolveFrom(g, n, seen).value)
    decreases Below(|g|) - seen
  {
    if g[n].shape.Plain? {
      assert Steps(g, n, 0) == Some(n);
    } else {
      StepInRange(g, n);
      var next := Step(g, n).value;
      ResolvedStandsFor(g, next, seen + {n});
      var k: nat :| Steps(g, next, k) == Some(ResolveFrom(g, n, seen).value);
      assert Steps(g, n, k + 1) == Some(ResolveFrom(g, n, seen).value);
    }
  }

  /** All let steps from the seen nodes stay among them. */
  ghost predicate Trapped(g: Graph, seen: set<nat>) {
    forall n | n in seen :: n < |g| && !g[n].shape.Plain? && (Step(g, n).Some? ==> Step(g, n).value in seen)
  }

  lemma {:induction false} TrappedForever(g: Graph, seen: set<nat>, n: nat, k: nat)
    requires Closed(g) && n < |g| && Trapped(g, seen) && n in seen
    ensures Steps(g, n, k).Some? ==> Steps(g, n, k).value in seen
    decreases k
  {
    if k > 0 && Step(g, n).Some? {
      TrappedForever(g, seen, Step(g, n).value, k - 1);
    }
  }

  /** The seen nodes lead one to the next, the last to `n`. */
  ghost predicate Leads(g: Graph, seen: set<nat>, n: nat) {
    forall x | x in seen :: x < |g| && !g[x].shape.Plain? && Step(g, x).Some? && (Step(g, x).value in seen || Step(g, x).value == n)
  }

  lemma {:induction false} UnresolvedStandsForNothing(g: Graph, n: nat, seen: set<nat>, m: nat)
    requires Closed(g) && n < |g| && seen <= Below(|g|) && Leads(g, seen, n) && ResolveFrom(g, n, seen).None?
    ensures !StandsFor(g, n, m)
    decreases Below(|g|) - seen
  {
    if n in seen {
      forall k: nat | Steps(g, n, k) == Some(m) ensures m < |g| ==> !g[m].shape.Plain? {
        TrappedForever(g, seen, n, k);
      }
    } else if Step(g, n).None? {
      forall k: nat | Steps(g, n, k) == Some(m) ensures m < |g| ==> !g[m].shape.Plain? {
      }
    } else {
      StepInRange(g, n);
      var next := Step(g, n).value;
      UnresolvedStandsForNothing(g, next, seen + {n}, m);
      forall k: nat | Steps(g, n, k) == Some(m) ensures m < |g| ==> !g[m].shape.Plain? {
        if k > 0 {
          assert Steps(g, next, k - 1) == Some(m);
        }
      }
    }
  }

  /** A node resolves to what it stands for, and to nothing exactly when it stands for nothing. */
  lemma {:induction false} ResolveExact(g: Graph, n: nat)
    requires Closed(g) && n < |g|
    ensures Resolve(g, n).Some? ==> StandsFor(g, n, Resolve(g, n).value)
    ensures Resolve(g, n).None? ==> forall m :: !StandsFor(g, n, m)
  {
    if Resolve(g, n).Some? {
      ResolvedStandsFor(g, n, {});
    } else {
      forall m ensures !StandsFor(g, n, m) {
        UnresolvedStandsForNothing(g, n, {}, m);
      }
    }
  }

  /** Children of a plain node, lets resolved. */
  function Child(g: Graph, n: nat, k: nat): Option<nat>
    requires Closed(g) && n < |g| && k < |g[n].children|
  {
    Resolve(g, g[n].children[k])
  }

  ghost predicate Path(g: Graph, p: seq<nat>)
    requires Closed(g)
  {
    (forall i | 0 <= i < |p| :: p[i] < |g|) && forall i | 0 <= i < |p| - 1 :: EdgeAt(g, p, i)
  }

  ghost predicate EdgeAt(g: Graph, p: seq<nat>, i: int)
    requires Closed(g) && 0 <= i < |p| - 1 && p[i] < |g|
  {
    exists k: nat :: k < |g[p[i]].children| && Child(g, p[i], k) == Some(p[i + 1])
  }

  /** Below the node some let is cyclic or empty, or some path returns to one of its nodes. */
  ghost predicate IllFormed(g: Graph, root: nat)
    requires Closed(g)
  {
    exists p: seq<nat> :: Path(g, p) && p != [] && p[0] == root && Broken(g, p)
  }

  ghost predicate Broken(g: Graph, p: seq<nat>)
    requires Closed(g) && p != [] && Path(g, p)
  {
    var last := p[|p| - 1];
    last in p[..|p| - 1] || exists k: nat :: k < |g[last].children| && Child(g, last, k).None?
  }

  /** Numbered nodes: no repetition, and every resolved child numbered before its parent. */
  ghost predicate Numbering(g: Graph, nodes: seq<nat>)
    requires Closed(g)
  {
    && Basics.Distinct(nodes) && (forall i | 0 <= i < |nodes| :: nodes[i] < |g|)
    && forall i: nat, k: nat | i < |nodes| && k < |g[nodes[i]].children| :: NumberedBefore(g, nodes, i, k)
  }

  ghost predicate NumberedBefore(g: Graph, nodes: seq<nat>, i: nat, k: nat)
    requires Closed(g) && i < |nodes| && nodes[i] < |g| && k < |g[nodes[i]].children|
  {
    Child(g, nodes[i], k).Some? && Child(g, nodes[i], k).value in nodes[..i]
  }

  lemma {:induction false} PathDescends(g: Graph, nodes: seq<nat>, p: seq<nat>, j: nat, i: nat)
    requires Closed(g) && Numbering(g, nodes) && Path(g, p) && j < |p| && i < |nodes| && p[0] == nodes[i]
    ensures exists l: nat :: l + j <= i && nodes[l] == p[j]
  {
    if j == 0 {
      assert i + j <= i && nodes[i] == p[j];
    } else {
      PathDescends(g, nodes, p, j - 1, i);
      var l: nat :| l + (j - 1) <= i && nodes[l] == p[j - 1];
      assert EdgeAt(g, p, j - 1);
      var k: nat :| k < |g[p[j - 1]].children| && Child(g, p[j - 1], k) == Some(p[j]);
      assert NumberedBefore(g, nodes, l, k);
      var m: nat :| m < l && nodes[..l][m] == p[j];
      assert m + j <= i && nodes[m] == p[j];
    }
  }

  lemma {:induction false} NumberedChildren(g: Graph, nodes: seq<nat>, i: nat)
    requires Closed(g) && Numbering(g, nodes) && i < |nodes|
    ensures forall k: nat | k < |g[nodes[i]].children| :: Child(g, nodes[i], k).Some?
  {
    forall k: nat | k < |g[nodes[i]].children| ensures Child(g, nodes[i], k).Some? {
      assert NumberedBefore(g, nodes, i, k);
    }
  }

  /** What is numbered is well formed below. */
  lemma {:induction false} NumberedWellFormed(g: Graph, nodes: seq<nat>, root: nat)
    requires Closed(g) && Numbering(g, nodes) && root in nodes
    ensures !IllFormed(g, root)
  {
    var i: nat :| i < |nodes| && nodes[i] == root;
    forall p: seq<nat> | Path(g, p) && p != [] && p[0] == root && Broken(g, p) ensures false {
      var last := |p| - 1;
      PathDescends(g, nodes, p, last, i);
      var l: nat :| l + last <= i && nodes[l] == p[last];
      NumberedChildren(g, nodes, l);
      var j: nat :| j < last && p[..last][j] == p[last];
      var q := p[j..];
      forall e | 0 <= e < |q| - 1 ensures EdgeAt(g, q, e) {
        assert EdgeAt(g, p, j + e);
      }
      PathDescends(g, nodes, q, last - j, l);
    }
  }

  datatype Frame = Frame(node: nat, next: nat)

  /** The nodes being expanded, outermost first. */
  ghost function Trail(stack: seq<Frame>): seq<nat> {
    seq(|stack|, i requires 0 <= i < |stack| => stack[i].node)
  }

  /** Each frame's visited children are numbered, except the one being expanded above it. */
  ghost predicate FrameOk(g: Graph, nodes: seq<nat>, stack: seq<Frame>, i: nat)
    requires Closed(g) && i < |stack|
  {
    var f := stack[i];
    && f.node < |g| && f.node !in nodes && f.next <= |g[f.node].children|
    && (forall k: nat | k < (if i + 1 < |stack| then f.next - 1 else f.next) :: Child(g, f.node, k).Some? && Child(g, f.node, k).value in nodes)
    && (i + 1 < |stack| ==> f.next > 0 && Child(g, f.node, f.next - 1) == Some(stack[i + 1].node))
  }

  ghost predicate Stacked(g: Graph, nodes: seq<nat>, stack: seq<Frame>, root: nat)
    requires Closed(g)
  {
    && Basics.Distinct(Trail(stack)) && (stack != [] ==> stack[0].node == root)
    && forall i: nat | i < |stack| :: FrameOk(g, nodes, stack, i)
  }

  lemma {:induction false} TrailIsPath(g: Graph, nodes: seq<nat>, stack: seq<Frame>, root: nat)
    requires Closed(g) && Stacked(g, nodes, stack, root)
    ensures Path(g, Trail(stack))
  {
    var p := Trail(stack);
    forall i | 0 <= i < |p| ensures p[i] < |g| {
      assert FrameOk(g, nodes, stack, i);
    }
    forall i | 0 <= i < |p| - 1 ensures EdgeAt(g, p, i) {
      assert FrameOk(g, nodes, stack, i);
      assert Child(g, p[i], stack[i].next - 1) == Some(p[i + 1]);
    }
  }

  /** A child that does not resolve, or that is being expanded, makes the root malformed. */
  lemma {:induction false} Rejected(g: Graph, nodes: seq<nat>, stack: seq<Frame>, root: nat, k: nat)
    requires Closed(g) && Stacked(g, nodes, stack, root) && stack != []
    requires var top := stack[|stack| - 1].node;
             top < |g| && k < |g[top].children| && (Child(g, top, k).None? || Child(g, top, k).value in Trail(stack))
    ensures IllFormed(g, root)
  {
    TrailIsPath(g, nodes, stack, root);
    var p, top := Trail(stack), stack[|stack| - 1].node;
    if Child(g, top, k).None? {
      assert Broken(g, p);
    } else {
      var q := p + [Child(g, top, k).value];
      forall i | 0 <= i < |q| - 1 ensures EdgeAt(g, q, i) {
        if i < |p| - 1 {
          assert EdgeAt(g, p, i);
        } else {
          assert Child(g, q[i], k) == Some(q[i + 1]);
        }
      }
      assert Broken(g, q);
    }
  }

  /** Meeting a child that is neither numbered nor being expanded. */
  lemma {:induction false} Descend(g: Graph, nodes: seq<nat>, below: seq<Frame>, top: Frame, root: nat, child: nat)
    requires Closed(g) && Stacked(g, nodes, below + [top], root) && top.node < |g| && top.next < |g[top.node].children|
    requires Child(g, top.node, top.next) == Some(child) && child !in nodes && child !in Trail(below + [top])
    ensures Stacked(g, nodes, below + [Frame(top.node, top.next + 1), Frame(child, 0)], root)
  {
    var stack, next := below + [top], below + [Frame(top.node, top.next + 1), Frame(child, 0)];
    assert Trail(next) == Trail(stack) + [child];
    DistinctSnoc(Trail(stack), child);
    forall i: nat | i < |next| ensures FrameOk(g, nodes, next, i) {
      if i < |stack| {
        assert FrameOk(g, nodes, stack, i);
        assert i + 1 < |stack| ==> next[i + 1].node == stack[i + 1].node;
      }
    }
  }

  /** Passing over a child that is numbered already. */
  lemma {:induction false} PassOver(g: Graph, nodes: seq<nat>, below: seq<Frame>, top: Frame, root: nat)
    requires Closed(g) && Stacked(g, nodes, below + [top], root) && top.node < |g| && top.next < |g[top.node].children|
    requires Child(g, top.node, top.next).Some? && Child(g, top.node, top.next).value in nodes
    ensures Stacked(g, nodes, below + [Frame(top.node, top.next + 1)], root)
  {
    var stack, next := below + [top], below + [Frame(top.node, top.next + 1)];
    assert Trail(next) == Trail(stack);
    forall i: nat | i < |next| ensures FrameOk(g, nodes, next, i) {
      assert FrameOk(g, nodes, stack, i);
      assert i + 1 < |stack| ==> next[i + 1].node == stack[i + 1].node;
    }
  }

  /** All children numbered: the node itself is numbered next. */
  lemma {:induction false} Finish(g: Graph, nodes: seq<nat>, below: seq<Frame>, top: Frame, root: nat)
    requires Closed(g) && Numbering(g, nodes) && Stacked(g, nodes, below + [top], root) && top.node < |g| && top.next == |g[top.node].children|
    ensures Numbering(g, nodes + [top.node]) && Stacked(g, nodes + [top.node], below, root)
  {
    var stack, more := below + [top], nodes + [top.node];
    assert FrameOk(g, nodes, stack, |below|);
    NumberingGrows(g, nodes, top.node);
    assert Trail(stack) == Trail(below) + [top.node];
    DistinctSnoc(Trail(below), top.node);
    forall i: nat | i < |below| ensures FrameOk(g, more, below, i) {
      assert FrameOk(g, nodes, stack, i);
      assert below[i].node in Trail(below) by { assert Trail(below)[i] == below[i].node; }
      assert i + 1 < |below| ==> stack[i + 1] == below[i + 1];
    }
  }

  lemma {:induction false} NumberingGrows(g: Graph, nodes: seq<nat>, n: nat)
    requires Closed(g) && Numbering(g, nodes) && n < |g| && n !in nodes
    requires forall k: nat | k < |g[n].children| :: Child(g, n, k).Some? && Child(g, n, k).value in nodes
    ensures Numbering(g, nodes + [n])
  {
    hide Child;
    var more := nodes + [n];
    DistinctSnoc(nodes, n);
    assert more[..|nodes|] == nodes;
    forall i: nat, k: nat | i < |more| && k < |g[more[i]].children| ensures NumberedBefore(g, more, i, k) {
      if i < |nodes| {
        assert NumberedBefore(g, nodes, i, k);
        assert more[..i] == nodes[..i];
      }
    }
  }

  /** Work left: nodes still to number, then children still to visit. */
  ghost function Unvisited(g: Graph, stack: seq<Frame>): nat {
    if stack == [] then 0 else
    var top := stack[|stack| - 1];
    Unvisited(g, stack[..|stack| - 1]) + 1 + if top.node < |g| && top.next <= |g[top.node].children| then |g[top.node].children| - top.next else 0
  }

  lemma {:induction false} TopFrame(g: Graph, nodes: seq<nat>, below: seq<Frame>, top: Frame, root: nat)
    requires Closed(g) && Stacked(g, nodes, below + [top], root)
    ensures top.node < |g| && top.node !in nodes && top.next <= |g[top.node].children|
    ensures below == [] ==> top.node == root
    ensures Unvisited(g, below + [top]) == Unvisited(g, below) + 1 + |g[top.node].children| - top.next
  {
    assert FrameOk(g, nodes, below + [top], |below|);
  }

  lemma {:induction false} ChildIs(g: Graph, n: nat, k: nat)
    requires Closed(g) && n < |g| && k < |g[n].children|
    ensures Child(g, n, k) == Resolve(g, g[n].children[k])
  {
  }

  lemma {:induction false} OnTrail(stack: seq<Frame>, n: nat)
    requires exists i :: 0 <= i < |stack| && stack[i].node == n
    ensures n in Trail(stack)
  {
    var i :| 0 <= i < |stack| && stack[i].node == n;
    assert Trail(stack)[i] == n;
  }

  lemma {:induction false} Begin(g: Graph, nodes: seq<nat>, root: nat)
    requires Closed(g) && root < |g| && root !in nodes
    ensures Stacked(g, nodes, [Frame(root, 0)], root)
  {
  }

  lemma {:induction false} Pigeonhole(s: seq<nat>, n: nat)
    requires Basics.Distinct(s) && forall i | 0 <= i < |s| :: s[i] < n
    ensures |s| <= n
  {
    var elements := set i | 0 <= i < |s| :: s[i];
    DistinctCard(s);
    CardMonotone(elements, Below(n));
  }

  lemma {:induction false} DistinctCard(s: seq<nat>)
    requires Basics.Distinct(s)
    ensures |set i | 0 <= i < |s| :: s[i]| == |s|
  {
    if s != [] {
      var n := |s| - 1;
      DistinctCard(s[..n]);
      assert (set i | 0 <= i < |s| :: s[i]) == (set i | 0 <= i < n :: s[..n][i]) + {s[n]};
    }
  }

  lemma {:induction false} CardMonotone(a: set<nat>, b: set<nat>)
    requires a <= b
    ensures |a| <= |b|
  {
    if a != {} {
      var x :| x in a;
      CardMonotone(a - {x}, b - {x});
    }
  }

  /** Numbered and entered nodes together are no more than the graph has. */
  lemma {:induction false} Fits(g: Graph, nodes: seq<nat>, stack: seq<Frame>, root: nat)
    requires Closed(g) && Numbering(g, nodes) && Stacked(g, nodes, stack, root)
    ensures |nodes| + |stack| <= |g|
  {
    var all := nodes + Trail(stack);
    forall i | 0 <= i < |stack| ensures stack[i].node < |g| && stack[i].node !in nodes {
      assert FrameOk(g, nodes, stack, i);
    }
    assert Basics.Distinct(all);
    Pigeonhole(all, |g|);
  }

  /** The index: nodes by number, and numbers by node. */
  class Index {
    const g: Graph
    var nodes: seq<nat>
    var ids: map<nat, nat>

    ghost predicate Valid()
      reads this
    {
      && Closed(g) && Numbering(g, nodes)
      && (forall n :: n in ids <==> n in nodes)
      && forall i: nat | i < |nodes| :: ids[nodes[i]] == i
    }

    constructor (g: Graph)
      requires Closed(g)
      ensures Valid() && nodes == [] && this.g == g
    {
      this.g, nodes, ids := g, [], map[];
    }

    method Append(n: nat)
      requires Valid() && n !in nodes && Numbering(g, nodes + [n])
      modifies this
      ensures Valid() && nodes == old(nodes) + [n]
    {
      ids := ids[n := |nodes|];
      nodes := nodes + [n];
    }

    /** Number everything below a node.  Refused exactly when some let is cyclic or empty or the
        graph below is cyclic; earlier numbers stay either way. */
    method Add(start: nat) returns (id: Option<nat>)
      requires Valid() && start < |g|
      modifies this
      ensures Valid() && old(nodes) <= nodes
      ensures id.Some? ==> Resolve(g, start).Some? && id.value < |nodes| && nodes[id.value] == Resolve(g, start).value
      ensures id.None? <==> Resolve(g, start).None? || IllFormed(g, Resolve(g, start).value)
    {
      hide Resolve, Child, Numbering, IllFormed, Stacked;
      var resolved := ResolveNode(g, start);
      if resolved.None? {
        return None;
      }
      var root := resolved.value;
      if root in ids {
        NumberedWellFormed(g, nodes, root);
        return Some(ids[root]);
      }
      var stack := [Frame(root, 0)];
      Begin(g, nodes, root);
      while stack != []
        invariant Valid() && old(nodes) <= nodes && Stacked(g, nodes, stack, root)
        invariant stack == [] ==> root in nodes
        decreases |g| - |nodes| - |stack|, Unvisited(g, stack)
      {
        var top, below := stack[|stack| - 1], stack[..|stack| - 1];
        assert stack == below + [top];
        TopFrame(g, nodes, below, top, root);
        if top.next < |g[top.node].children| {
          var child := ResolveNode(g, g[top.node].children[top.next]);
          ChildIs(g, top.node, top.next);
          if child.None? {
            Rejected(g, nodes, stack, root, top.next);
            return None;
          }
          if child.value in ids {
            PassOver(g, nodes, below, top, root);
            stack := below + [Frame(top.node, top.next + 1)];
            continue;
          }
          if exists i :: 0 <= i < |stack| && stack[i].node == child.value {
            OnTrail(stack, child.value);
            Rejected(g, nodes, stack, root, top.next);
            return None;
          }
          Descend(g, nodes, below, top, root, child.value);
          stack := below + [Frame(top.node, top.next + 1), Frame(child.value, 0)];
          Fits(g, nodes, stack, root);
        } else {
          Finish(g, nodes, below, top, root);
          Append(top.node);
          stack := below;
        }
      }
      NumberedWellFormed(g, nodes, root);
      return Some(ids[root]);
    }

    /** The children of a numbered node, as numbers: each resolved child, and each smaller. */
    method Children(id: nat) returns (children: seq<nat>)
      requires Valid() && id < |nodes|
      ensures |children| == |g[nodes[id]].children|
      ensures forall k: nat | k < |children| :: children[k] < id && Child(g, nodes[id], k) == Some(nodes[children[k]])
    {
      hide Resolve;
      var c := g[nodes[id]].children;
      children := [];
      for k := 0 to |c|
        invariant |children| == k
        invariant forall j: nat | j < k :: children[j] < id && Child(g, nodes[id], j) == Some(nodes[children[j]])
      {
        assert NumberedBefore(g, nodes, id, k);
        var child := ResolveNode(g, c[k]);
        var j: nat :| j < id && nodes[..id][j] == child.value;
        children := children + [ids[child.value]];
      }
    }
  }
}
