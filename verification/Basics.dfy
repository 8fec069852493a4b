/** Shared vocabulary: optional values, computations that may stop, and the
    work budget every bounded checker draws on. */
module Basics {
  datatype Option<+T> = None | Some(value: T)

  /** Why a checker gave no answer.  A stop is never a verdict. */
  datatype StopReason = Malformed | Exhausted | TooDeep | Overflow

  /** The result of a computation that may stop early; usable with `:-`. */
  datatype Outcome<+T> = Stop(reason: StopReason) | Done(value: T) {
    predicate IsFailure() { Stop? }

    function PropagateFailure<U>(): Outcome<U>
      requires Stop?
    {
      Stop(reason)
    }

    function Extract(): T
      requires Done?
    {
      value
    }
  }

  /** The result of charging a budget; usable with `:-` where an Outcome is returned. */
  datatype Charge = Halted(reason: StopReason) | Charged {
    predicate IsFailure() { Halted? }

    function PropagateFailure<U>(): Outcome<U>
      requires Halted?
    {
      Stop(reason)
    }
  }

  predicate Distinct<T(==)>(s: seq<T>) {
    forall i, j | 0 <= i < j < |s| :: s[i] != s[j]
  }

  lemma {:induction false} DistinctSnoc<T>(s: seq<T>, x: T)
    ensures Distinct(s + [x]) <==> Distinct(s) && x !in s
  {
    var t := s + [x];
    assert t[|s|] == x;
    if Distinct(t) {
      assert forall i | 0 <= i < |s| :: s[i] == t[i];
      assert Distinct(s);
    }
  }

  function Pow2(n: nat): (p: nat)
    ensures p > 0
  {
    if n == 0 then 1 else 2 * Pow2(n - 1)
  }

  /** A duplicate-free listing of a finite set, as iterating an ordered container gives. */
  method Listing<T>(s: set<T>) returns (list: seq<T>)
    ensures Distinct(list) && |list| == |s|
    ensures forall x :: x in list <==> x in s
  {
    list := [];
    var rest := s;
    while rest != {}
      invariant rest <= s && Distinct(list) && |list| + |rest| == |s|
      invariant forall x :: x in list <==> x in s - rest
    {
      var x :| x in rest;
      assert x !in list;
      list, rest := list + [x], rest - {x};
    }
  }

  const UINT64_MAX: nat := 0xFFFF_FFFF_FFFF_FFFF

  /** The step budget of one evaluation.  The wall clock may expire at any tick. */
  class Work {
    const maxSteps: nat
    const maxDepth: nat
    var steps: nat
    /** Some charge was refused. */
    ghost var halted: bool

    ghost predicate Valid()
      reads this
    {
      steps <= maxSteps
    }

    constructor (maxSteps: nat, maxDepth: nat)
      ensures Valid() && steps == 0 && !halted
      ensures this.maxSteps == maxSteps && this.maxDepth == maxDepth
    {
      this.maxSteps, this.maxDepth, steps := maxSteps, maxDepth, 0;
      halted := false;
    }

    /** The amount is charged whenever it fits; the call then stops only when the deadline has passed. */
    method Tick(amount: nat) returns (r: Charge)
      requires Valid()
      modifies this
      ensures Valid()
      ensures steps == if amount <= maxSteps - old(steps) then old(steps) + amount else old(steps)
      ensures r.Charged? ==> amount <= maxSteps - old(steps) && halted == old(halted)
      ensures r.Halted? ==> r.reason == Exhausted && halted
    {
      if amount > maxSteps - steps {
        halted := true;
        return Halted(Exhausted);
      }
      steps := steps + amount;
      var expired: bool := *;
      halted := halted || expired;
      return if expired then Halted(Exhausted) else Charged;
    }
  }
}
