/** Walking a shared DAG children first, with an explicit stack. */
module PostOrder {
  import opened Terms

  /** A node to visit; processed once its children have been pushed above it. */
  datatype Frame = Frame(id: nat, processed: bool)

  /** Work a fresh frame can still cause: more than its own two visits plus its children's. */
  ghost function Weight(ir: Dag, id: nat): (w: nat)
    requires Ordered(ir)
    ensures w > 0
    decreases id, 1
  {
    if id < |ir| then 2 + WeightAll(ir, id, ir[id].children) else 1
  }

  ghost function WeightAll(ir: Dag, bound: nat, ids: seq<nat>): nat
    requires Ordered(ir) && forall k | 0 <= k < |ids| :: ids[k] < bound
    decreases bound, 0, |ids|
  {
    if ids == [] then 0 else WeightAll(ir, bound, ids[..|ids| - 1]) + Weight(ir, ids[|ids| - 1])
  }

  ghost function Potential(ir: Dag, pending: seq<Frame>): nat
    requires Ordered(ir)
  {
    if pending == [] then 0 else
    var top := pending[|pending| - 1];
    Potential(ir, pending[..|pending| - 1]) + if top.processed then 1 else Weight(ir, top.id)
  }

  lemma {:induction false} PotentialPush(ir: Dag, pending: seq<Frame>, f: Frame)
    requires Ordered(ir)
    ensures Potential(ir, pending + [f]) == Potential(ir, pending) + if f.processed then 1 else Weight(ir, f.id)
  {
    assert (pending + [f])[..|pending|] == pending;
  }

  /** The child is done, or waits above position `i`. */
  ghost predicate Handled(done: set<nat>, pending: seq<Frame>, i: nat, child: nat) {
    child in done || exists j: nat :: i < j < |pending| && pending[j].id == child
  }

  ghost predicate FrameWaits(ir: Dag, opens: nat -> bool, done: set<nat>, pending: seq<Frame>, i: nat)
    requires i < |pending|
  {
    pending[i].processed ==>
      && pending[i].id < |ir| && opens(pending[i].id)
      && forall k: nat | k < |ir[pending[i].id].children| :: Handled(done, pending, i, ir[pending[i].id].children[k])
  }

  /** Every expanded frame's children are done or wait above it. */
  ghost predicate Waiting(ir: Dag, opens: nat -> bool, done: set<nat>, pending: seq<Frame>) {
    forall i: nat | i < |pending| :: FrameWaits(ir, opens, done, pending, i)
  }

  lemma {:induction false} WeightAllStep(ir: Dag, bound: nat, ids: seq<nat>, k: nat)
    requires Ordered(ir) && (forall i | 0 <= i < |ids| :: ids[i] < bound) && k < |ids|
    ensures WeightAll(ir, bound, ids[..k + 1]) == WeightAll(ir, bound, ids[..k]) + Weight(ir, ids[k])
  {
    assert ids[..k + 1][..k] == ids[..k];
  }

  lemma {:induction false} HandledKnown(done: set<nat>, pending: seq<Frame>, i: nat, child: nat)
    requires child in done
    ensures Handled(done, pending, i, child)
  {
  }

  /** Pushing a frame handles its own id and unsettles no other. */
  lemma {:induction false} HandledPush(done: set<nat>, pending: seq<Frame>, i: nat, child: nat)
    requires i < |pending|
    ensures Handled(done, pending + [Frame(child, false)], i, child)
    ensures forall other | Handled(done, pending, i, other) :: Handled(done, pending + [Frame(child, false)], i, other)
  {
    var next := pending + [Frame(child, false)];
    assert next[|pending|].id == child;
    forall other | Handled(done, pending, i, other) ensures Handled(done, next, i, other) {
      if other !in done {
        var j: nat :| i < j < |pending| && pending[j].id == other;
        assert next[j].id == other;
      }
    }
  }

  /** Popping a frame whose id is done, and more being done, keep everyone waiting properly. */
  lemma {:induction false} WaitingPop(ir: Dag, opens: nat -> bool, done: set<nat>, below: seq<Frame>, top: Frame, more: set<nat>)
    requires Waiting(ir, opens, done, below + [top]) && done + {top.id} <= more
    ensures Waiting(ir, opens, more, below)
  {
    var pending := below + [top];
    forall i: nat | i < |below| ensures FrameWaits(ir, opens, more, below, i) {
      assert FrameWaits(ir, opens, done, pending, i);
      if below[i].processed {
        forall k: nat | k < |ir[below[i].id].children| ensures Handled(more, below, i, ir[below[i].id].children[k]) {
          var child := ir[below[i].id].children[k];
          assert Handled(done, pending, i, child);
          if child !in done {
            var j: nat :| i < j < |pending| && pending[j].id == child;
            assert j < |below| ==> below[j].id == child;
          }
        }
      }
    }
  }

  /** Expanding the top frame in place and pushing frames above it. */
  lemma {:induction false} WaitingPush(ir: Dag, opens: nat -> bool, done: set<nat>, below: seq<Frame>, id: nat, next: seq<Frame>)
    requires Waiting(ir, opens, done, below + [Frame(id, false)]) && below + [Frame(id, true)] <= next
    requires forall i: nat | |below| <= i < |next| :: FrameWaits(ir, opens, done, next, i)
    ensures Waiting(ir, opens, done, next)
  {
    var pending := below + [Frame(id, false)];
    forall i: nat | i < |next| ensures FrameWaits(ir, opens, done, next, i) {
      if i < |below| {
        assert FrameWaits(ir, opens, done, pending, i);
        assert next[i] == below[i];
        if below[i].processed {
          forall k: nat | k < |ir[below[i].id].children| ensures Handled(done, next, i, ir[below[i].id].children[k]) {
            var child := ir[below[i].id].children[k];
            assert Handled(done, pending, i, child);
            if child !in done {
              var j: nat :| i < j < |pending| && pending[j].id == child;
              assert next[j].id == child;
            }
          }
        }
      }
    }
  }

  /** Put the processed frame back, and the children that are not done above it. */
  method Expand(ir: Dag, ghost opens: nat -> bool, done: set<nat>, below: seq<Frame>, id: nat) returns (next: seq<Frame>)
    requires Ordered(ir) && Waiting(ir, opens, done, below + [Frame(id, false)]) && id < |ir| && opens(id)
    ensures Waiting(ir, opens, done, next) && below + [Frame(id, true)] <= next
    ensures Potential(ir, next) < Potential(ir, below) + Weight(ir, id)
    ensures forall i | |below| < i < |next| :: next[i].id < |ir|
  {
    hide Potential, Handled, WeightAll;
    var c := ir[id].children;
    next := below + [Frame(id, true)];
    PotentialPush(ir, below, Frame(id, true));
    for k := 0 to |c|
      invariant below + [Frame(id, true)] <= next
      invariant forall i | |below| < i < |next| :: !next[i].processed && next[i].id < |ir|
      invariant forall j: nat | j < k :: Handled(done, next, |below|, c[j])
      invariant Potential(ir, next) <= Potential(ir, below) + 1 + WeightAll(ir, id, c[..k])
    {
      WeightAllStep(ir, id, c, k);
      if c[k] !in done {
        PotentialPush(ir, next, Frame(c[k], false));
        HandledPush(done, next, |below|, c[k]);
        next := next + [Frame(c[k], false)];
      } else {
        HandledKnown(done, next, |below|, c[k]);
      }
    }
    assert c[..|c|] == c;
    WaitingPush(ir, opens, done, below, id, next);
  }

  /** A processed frame back on top finds all its children done. */
  lemma {:induction false} ChildrenDone(ir: Dag, opens: nat -> bool, done: set<nat>, below: seq<Frame>, id: nat)
    requires Waiting(ir, opens, done, below + [Frame(id, true)])
    ensures id < |ir| && opens(id) && forall k: nat | k < |ir[id].children| :: ir[id].children[k] in done
  {
    var pending := below + [Frame(id, true)];
    assert FrameWaits(ir, opens, done, pending, |below|);
    forall k: nat | k < |ir[id].children| ensures ir[id].children[k] in done {
      assert Handled(done, pending, |below|, ir[id].children[k]);
    }
  }

  lemma {:induction false} NothingWaits(ir: Dag, opens: nat -> bool, done: set<nat>, root: nat)
    ensures Waiting(ir, opens, done, [Frame(root, false)])
  {
  }
}
