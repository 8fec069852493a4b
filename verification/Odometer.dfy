/** Counters that visit every digit vector exactly once, least significant digit first. */
module Odometer {
  /** The vectors visited before `t`: the most significant differing digit is smaller. */
  ghost predicate Before(s: seq<nat>, t: seq<nat>)
    requires |s| == |t|
  {
    |s| > 0 && (Before(s[1..], t[1..]) || (s[1..] == t[1..] && s[0] < t[0]))
  }

  predicate Within(s: seq<nat>, top: nat) {
    forall k | 0 <= k < |s| :: s[k] <= top
  }

  lemma {:induction false} NothingBeforeZero(s: seq<nat>, t: seq<nat>)
    requires |s| == |t| && Within(t, 0)
    ensures !Before(s, t)
  {
    if |s| > 0 {
      NothingBeforeZero(s[1..], t[1..]);
    }
  }

  lemma {:induction false} EverythingUpToTop(s: seq<nat>, t: seq<nat>, top: nat)
    requires |s| == |t| && Within(s, top)
    requires forall k | 0 <= k < |t| :: t[k] == top
    ensures s == t || Before(s, t)
  {
    if |s| > 0 {
      EverythingUpToTop(s[1..], t[1..], top);
      assert s == [s[0]] + s[1..] && t == [t[0]] + t[1..];
    }
  }

  /** Carrying past `i` saturated digits moves to the immediate successor. */
  lemma {:induction false} Carry(s: seq<nat>, t: seq<nat>, u: seq<nat>, i: nat, top: nat)
    requires |s| == |t| == |u| && i < |t| && Within(s, top)
    requires forall k | 0 <= k < i :: t[k] == top && u[k] == 0
    requires u[i] == t[i] + 1
    requires forall k | i < k < |t| :: u[k] == t[k]
    requires Before(s, u)
    ensures s == t || Before(s, t)
  {
    assert s == [s[0]] + s[1..] && t == [t[0]] + t[1..];
    if i == 0 {
      assert u[1..] == t[1..];
    } else {
      Carry(s[1..], t[1..], u[1..], i - 1, top);
    }
  }
}
