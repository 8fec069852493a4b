/** The concrete-heap evaluator: recursion over the formula, a partition counter
    for star and a representative enumeration for wand, all under a work budget. */
module SeparationChecker {
  import opened Basics
  import opened SeparationLogic
  import opened SeparationStabilisation
  import opened SeparationFormula
  import opened SeparationRepresentatives
  import opened Odometer

  /** The next partition; every earlier or equal one has then been visited. */
  method NextPartition(right: seq<bool>) returns (next: seq<bool>, more: bool)
    ensures |next| == |right|
    ensures more ==> forall s: seq<bool> | |s| == |right| && Before(Digits(s), Digits(next)) ::
                       s == right || Before(Digits(s), Digits(right))
    ensures !more ==> forall s: seq<bool> | |s| == |right| :: s == right || Before(Digits(s), Digits(right))
  {
    next := right;
    var i := 0;
    while i < |next| && next[i]
      invariant i <= |next| == |right|
      invariant forall k | 0 <= k < i :: right[k] && !next[k]
      invariant forall k | i <= k < |right| :: next[k] == right[k]
    {
      next, i := next[i := false], i + 1;
    }
    more := i < |next|;
    if more {
      next := next[i := true];
    }
    forall s: seq<bool> | |s| == |right| && (more ==> Before(Digits(s), Digits(next)))
      ensures s == right || Before(Digits(s), Digits(right))
    {
      if more {
        Carry(Digits(s), Digits(right), Digits(next), i, 1);
      } else {
        EverythingUpToTop(Digits(s), Digits(right), 1);
      }
      if Digits(s) == Digits(right) {
        DigitsInjective(s, right);
      }
    }
  }

  /** The next choice vector; each digit runs from 0 (absent) to `top`. */
  method NextChoice(choices: seq<nat>, top: nat) returns (next: seq<nat>, more: bool)
    requires Within(choices, top)
    ensures |next| == |choices| && Within(next, top)
    ensures more ==> forall s: seq<nat> | |s| == |choices| && Within(s, top) && Before(s, next) ::
                       s == choices || Before(s, choices)
    ensures !more ==> forall s: seq<nat> | |s| == |choices| && Within(s, top) :: s == choices || Before(s, choices)
  {
    next := choices;
    var i := 0;
    while i < |next| && next[i] == top
      invariant i <= |next| == |choices| && Within(next, top)
      invariant forall k | 0 <= k < i :: choices[k] == top && next[k] == 0
      invariant forall k | i <= k < |choices| :: next[k] == choices[k]
    {
      next, i := next[i := 0], i + 1;
    }
    more := i < |next|;
    if more {
      next := next[i := next[i] + 1];
    }
    forall s: seq<nat> | |s| == |choices| && Within(s, top) && (more ==> Before(s, next))
      ensures s == choices || Before(s, choices)
    {
      if more {
        Carry(s, choices, next, i, top);
      } else {
        EverythingUpToTop(s, choices, top);
      }
    }
  }

  lemma {:induction false} SideStep(heap: Heap, addresses: seq<nat>, right: seq<bool>, i: nat, flag: bool)
    requires i < |addresses| == |right| && addresses[i] in heap
    ensures Side(heap, addresses[..i + 1], right[..i + 1], flag) ==
            var side := Side(heap, addresses[..i], right[..i], flag);
            if right[i] == flag then side[addresses[i] := heap[addresses[i]]] else side
  {
    var before, after := Side(heap, addresses[..i], right[..i], flag), Side(heap, addresses[..i + 1], right[..i + 1], flag);
    forall x | x in before ensures x in after {
      var k :| 0 <= k < i && right[..i][k] == flag && addresses[..i][k] == x;
      assert right[..i + 1][k] == flag && addresses[..i + 1][k] == x;
    }
    assert right[..i + 1][i] == right[i] && addresses[..i + 1][i] == addresses[i];
    forall x | x in after ensures x in before || (right[i] == flag && x == addresses[i]) {
      var k :| 0 <= k < i + 1 && right[..i + 1][k] == flag && addresses[..i + 1][k] == x;
      if k < i {
        assert right[..i][k] == flag && addresses[..i][k] == x;
      }
    }
  }

  method Divide(heap: Heap, addresses: seq<nat>, right: seq<bool>) returns (a: Heap, b: Heap)
    requires |addresses| == |right| && forall x | x in addresses :: x in heap
    ensures a == Side(heap, addresses, right, false) && b == Side(heap, addresses, right, true)
  {
    a, b := map[], map[];
    for i := 0 to |addresses|
      invariant a == Side(heap, addresses[..i], right[..i], false)
      invariant b == Side(heap, addresses[..i], right[..i], true)
    {
      SideStep(heap, addresses, right, i, false);
      SideStep(heap, addresses, right, i, true);
      if right[i] {
        b := b[addresses[i] := heap[addresses[i]]];
      } else {
        a := a[addresses[i] := heap[addresses[i]]];
      }
    }
    assert addresses[..|addresses|] == addresses && right[..|right|] == right;
  }

  class Checker {
    const p: Prepared
    const stack: Stack
    const v: Vocabulary
    const work: Work

    constructor (p: Prepared, stack: Stack, v: Vocabulary, work: Work)
      ensures this.p == p && this.stack == stack && this.v == v && this.work == work
    {
      this.p, this.stack, this.v, this.work := p, stack, v, work;
    }

    ghost predicate Ready(id: nat) {
      && Faithful(p) && Adequate(p.formula, stack, v)
      && (forall x: nat | Symbolic(p.formula, x) :: x in stack)
      && id < |p.formula.nodes| && Reaches(p.formula, p.formula.root, id)
    }

    lemma {:induction false} ChildReady(id: nat, k: nat)
      requires Ready(id) && k < |p.formula.nodes[id].children|
      ensures NodeFits(p.formula, id) && Ready(p.formula.nodes[id].children[k])
    {
      ReachesChild(p.formula, p.formula.root, id, k);
    }

    /** Why an evaluation may stop: a charge was refused, or addresses may run out. */
    ghost predicate Excused(id: nat, size: nat, reason: StopReason)
      requires Ready(id)
      reads work
    {
      (reason == Exhausted && work.halted) || (reason == Overflow && size + Growth(p.formula, |v.addresses|, id) >= UINT64_MAX)
    }

    /** How much a wand may add to a heap. */
    ghost function Room(id: nat): nat
      requires Ready(id) && p.formula.nodes[id].kind.Wand?
    {
      assert NodeFits(p.formula, id);
      var c := p.formula.nodes[id].children;
      |v.addresses| + Max(Width(p.formula, c[0]), Width(p.formula, c[1]))
    }

    /** What excuses a child excuses its parent. */
    lemma {:induction false} ExcusedAbove(id: nat, k: nat, below: nat, size: nat, reason: StopReason)
      requires Ready(id) && k < |p.formula.nodes[id].children| && Ready(p.formula.nodes[id].children[k])
      requires Excused(p.formula.nodes[id].children[k], below, reason)
      requires below <= size || (p.formula.nodes[id].kind.Wand? && below <= size + Room(id))
      ensures Excused(id, size, reason)
    {
      assert NodeFits(p.formula, id);
    }

    /** Evaluate a child on a heap that is not larger, or larger by what a wand adds. */
    method HoldsChild(id: nat, k: nat, heap: Heap, ghost size: nat) returns (r: Outcome<bool>)
      requires Ready(id) && k < |p.formula.nodes[id].children| && work.Valid()
      requires |heap| <= size || (p.formula.nodes[id].kind.Wand? && |heap| <= size + Room(id))
      modifies work
      ensures work.Valid() && work.steps >= old(work.steps)
      ensures NodeFits(p.formula, id) && Ready(p.formula.nodes[id].children[k])
      ensures r.Done? ==> r.value == Sat(p.formula, stack, p.formula.nodes[id].children[k], heap)
      ensures r.Stop? ==> Excused(id, size, r.reason)
      decreases id, 0, 0
    {
      hide Sat, Growth, Adequate;
      ChildReady(id, k);
      r := Holds(p.formula.nodes[id].children[k], heap);
      if r.Stop? {
        ExcusedAbove(id, k, |heap|, size, r.reason);
      }
    }

    method Holds(id: nat, heap: Heap) returns (r: Outcome<bool>)
      requires Ready(id) && work.Valid()
      modifies work
      ensures work.Valid() && work.steps >= old(work.steps)
      ensures r.Done? ==> r.value == Sat(p.formula, stack, id, heap)
      ensures r.Stop? ==> Excused(id, |heap|, r.reason)
      decreases id, 4
    {
      var n := p.formula.nodes[id];
      :- work.Tick(1);
      var c := n.children;
      assert NodeFits(p.formula, id);
      CoversReached(p.formula, stack, Elements(v.addresses), id);
      if |c| > 0 { ChildReady(id, 0); }
      if |c| > 1 { ChildReady(id, 1); }
      match n.kind
      case Boolean(truth) =>
        return Done(truth);
      case Relation(left, right, equal) =>
        return Done((stack[left] == stack[right]) == equal);
      case Emp =>
        return Done(|heap| == 0);
      case PointsTo(cell, fields) =>
        var address := stack[cell];
        SingleCell(heap, address, Instantiate(fields, stack));
        return Done(address != 0 && |heap| == 1 && address in heap && heap[address] == Instantiate(fields, stack));
      case Not =>
        var a :- HoldsChild(id, 0, heap, |heap|);
        return Done(!a);
      case And =>
        var a :- HoldsChild(id, 0, heap, |heap|);
        if !a {
          return Done(false);
        }
        r := HoldsChild(id, 1, heap, |heap|);
      case Or =>
        var a :- HoldsChild(id, 0, heap, |heap|);
        if a {
          return Done(true);
        }
        r := HoldsChild(id, 1, heap, |heap|);
      case Star =>
        r := HoldsStar(id, heap);
      case Wand =>
        r := HoldsWand(id, heap);
    }

    lemma {:induction false} SingleCell(heap: Heap, a: nat, x: Record)
      ensures (|heap| == 1 && a in heap && heap[a] == x) <==> heap == map[a := x]
    {
      if |heap| == 1 && a in heap && heap[a] == x {
        assert |heap.Keys - {a}| == 0;
        assert heap.Keys == {a};
      }
    }

    ghost predicate Separates(id: nat, heap: Heap, addresses: seq<nat>, right: seq<bool>)
      requires Ready(id) && p.formula.nodes[id].kind.Star? && |addresses| == |right|
    {
      assert NodeFits(p.formula, id);
      var c := p.formula.nodes[id].children;
      && Sat(p.formula, stack, c[0], Side(heap, addresses, right, false))
      && Sat(p.formula, stack, c[1], Side(heap, addresses, right, true))
    }

    /** The flag vectors describe exactly the splits of the heap. */
    lemma {:induction false} StarByPartitions(id: nat, heap: Heap, addresses: seq<nat>)
      requires Ready(id) && p.formula.nodes[id].kind.Star?
      requires Distinct(addresses) && forall x :: x in addresses <==> x in heap
      ensures Sat(p.formula, stack, id, heap) <==>
              exists right: seq<bool> :: |right| == |addresses| && Separates(id, heap, addresses, right)
    {
      assert NodeFits(p.formula, id);
      var c := p.formula.nodes[id].children;
      if Sat(p.formula, stack, id, heap) {
        var a, b :| Splits(heap, a, b) && Sat(p.formula, stack, c[0], a) && Sat(p.formula, stack, c[1], b);
        var right := EverySplit(heap, addresses, a, b);
        assert Separates(id, heap, addresses, right);
      }
      if right: seq<bool> :| |right| == |addresses| && Separates(id, heap, addresses, right) {
        SidesSplit(heap, addresses, right);
      }
    }

    method TryPartition(id: nat, heap: Heap, addresses: seq<nat>, right: seq<bool>) returns (r: Outcome<bool>)
      requires Ready(id) && p.formula.nodes[id].kind.Star? && work.Valid()
      requires |addresses| == |right| && forall x | x in addresses :: x in heap
      modifies work
      ensures work.Valid() && work.steps >= old(work.steps)
      ensures r.Done? ==> r.value == Separates(id, heap, addresses, right)
      ensures r.Stop? ==> Excused(id, |heap|, r.reason)
      decreases id, 0
    {
      var c := p.formula.nodes[id].children;
      assert NodeFits(p.formula, id);
      ChildReady(id, 0);
      ChildReady(id, 1);
      var a, b := Divide(heap, addresses, right);
      SideCounted(heap, addresses, right, false);
      SideCounted(heap, addresses, right, true);
      var left :- HoldsChild(id, 0, a, |heap|);
      if !left {
        return Done(false);
      }
      r := HoldsChild(id, 1, b, |heap|);
    }

    method HoldsStar(id: nat, heap: Heap) returns (r: Outcome<bool>)
      requires Ready(id) && p.formula.nodes[id].kind.Star? && work.Valid()
      modifies work
      ensures work.Valid() && work.steps >= old(work.steps)
      ensures r.Done? ==> r.value == Sat(p.formula, stack, id, heap)
      ensures r.Stop? ==> Excused(id, |heap|, r.reason)
      decreases id, 3
    {
      hide Adequate, Faithful, Sat;
      var addresses := Listing(heap.Keys);
      StarByPartitions(id, heap, addresses);
      var right := seq(|addresses|, _ => false);
      forall s: seq<bool> | |s| == |addresses| ensures !Before(Digits(s), Digits(right)) {
        NothingBeforeZero(Digits(s), Digits(right));
      }
      while true
        invariant work.Valid() && work.steps >= old(work.steps)
        invariant |right| == |addresses|
        invariant forall s: seq<bool> | |s| == |addresses| && Before(Digits(s), Digits(right)) ::
                    !Separates(id, heap, addresses, s)
        decreases work.maxSteps - work.steps
      {
        :- work.Tick(1);
        :- work.Tick(|heap|);
        var separated :- TryPartition(id, heap, addresses, right);
        if separated {
          return Done(true);
        }
        var next, more := NextPartition(right);
        if !more {
          return Done(false);
        }
        right := next;
      }
    }

    /** What the wand asks of one extension. */
    ghost predicate Respects(id: nat, heap: Heap, e: Heap)
      requires Ready(id) && p.formula.nodes[id].kind.Wand?
    {
      assert NodeFits(p.formula, id);
      var c := p.formula.nodes[id].children;
      Sat(p.formula, stack, c[0], e) ==> Sat(p.formula, stack, c[1], heap + e)
    }

    /** The `count`-padded form of one choice respects the wand. */
    ghost predicate ChoiceRespects(id: nat, fr: Frame, d: seq<nat>, count: nat)
      requires Ready(id) && p.formula.nodes[id].kind.Wand?
      requires |d| == |fr.available| && Within(d, |v.records|) && Distinct(fr.available) && count <= |fr.unused|
    {
      Respects(id, fr.heap, Representative(v, fr, d, count))
    }

    /** The enumerated extensions decide the wand over all extensions. */
    lemma {:induction false} WandByRepresentatives(id: nat, fr: Frame)
      requires Ready(id) && p.formula.nodes[id].kind.Wand?
      requires Fits(p.formula, stack, v, fr)
      requires NodeFits(p.formula, id)
      requires forall k | 0 <= k < 2 :: Width(p.formula, p.formula.nodes[id].children[k]) <= |fr.unused|
      ensures Sat(p.formula, stack, id, fr.heap) <==>
              forall d: seq<nat>, count: nat |
                |d| == |fr.available| && Within(d, |v.records|) && count <= |fr.unused| :: ChoiceRespects(id, fr, d, count)
    {
      if forall d: seq<nat>, count: nat |
        |d| == |fr.available| && Within(d, |v.records|) && count <= |fr.unused| :: ChoiceRespects(id, fr, d, count)
      {
        forall e: Heap | Extends(p.formula.fieldSorts, fr.heap, e) ensures Respects(id, fr.heap, e) {
          Represented(id, fr, e);
        }
      }
      if Sat(p.formula, stack, id, fr.heap) {
        forall d: seq<nat>, count: nat | |d| == |fr.available| && Within(d, |v.records|) && count <= |fr.unused|
          ensures ChoiceRespects(id, fr, d, count)
        {
          RepresentativeExtends(p.formula, stack, v, fr, d, count);
        }
      }
    }

    lemma {:induction false} Represented(id: nat, fr: Frame, e: Heap)
      requires Ready(id) && p.formula.nodes[id].kind.Wand?
      requires Fits(p.formula, stack, v, fr)
      requires NodeFits(p.formula, id)
      requires forall k | 0 <= k < 2 :: Width(p.formula, p.formula.nodes[id].children[k]) <= |fr.unused|
      requires forall d: seq<nat>, count: nat |
                 |d| == |fr.available| && Within(d, |v.records|) && count <= |fr.unused| :: ChoiceRespects(id, fr, d, count)
      requires Extends(p.formula.fieldSorts, fr.heap, e)
      ensures Respects(id, fr.heap, e)
    {
      hide Similar, Representative, Sat, Covers, Width;
      var f, bound := p.formula, |fr.unused|;
      var c := f.nodes[id].children;
      var addresses, records := Elements(v.addresses), MentionedRecords(f, stack);
      var d, count := EveryExtension(f, stack, v, fr, bound, e);
      var rep := Representative(v, fr, d, count);
      RepresentativeExtends(f, stack, v, fr, d, count);
      ChildReady(id, 0);
      ChildReady(id, 1);
      CoversReached(f, stack, addresses, c[0]);
      CoversReached(f, stack, addresses, c[1]);
      SimilarReflexive(addresses, records, bound, fr.heap);
      SimilarUnion(addresses, records, bound, bound, fr.heap, fr.heap, rep, e);
      Stabilisation(f, stack, addresses, records, c[0], bound, rep, e);
      Stabilisation(f, stack, addresses, records, c[1], bound, fr.heap + rep, fr.heap + e);
      assert ChoiceRespects(id, fr, d, count);
    }

    method Available(heap: Heap) returns (available: seq<nat>)
      requires Distinct(v.addresses)
      ensures Distinct(available)
      ensures forall x :: x in available <==> x in v.addresses && x !in heap
      ensures |available| <= |v.addresses|
    {
      available := [];
      for i := 0 to |v.addresses|
        invariant Distinct(available) && |available| <= i
        invariant forall x :: x in available <==> x in v.addresses[..i] && x !in heap
      {
        if v.addresses[i] !in heap {
          available := available + [v.addresses[i]];
        }
      }
      assert v.addresses[..|v.addresses|] == v.addresses;
    }

    method HoldsWand(id: nat, heap: Heap) returns (r: Outcome<bool>)
      requires Ready(id) && p.formula.nodes[id].kind.Wand? && work.Valid()
      modifies work
      ensures work.Valid() && work.steps >= old(work.steps)
      ensures r.Done? ==> r.value == Sat(p.formula, stack, id, heap)
      ensures r.Stop? ==> Excused(id, |heap|, r.reason)
      decreases id, 3
    {
      var c := p.formula.nodes[id].children;
      assert NodeFits(p.formula, id);
      var bound := Max(p.width[c[0]], p.width[c[1]]);
      var unused :- FreshAddresses(v, heap, bound, work);
      var available := Available(heap);
      var fr := Frame(heap, available, unused);
      WandByRepresentatives(id, fr);
      r := TryChoices(id, fr);
    }

    method TryChoices(id: nat, fr: Frame) returns (r: Outcome<bool>)
      requires Ready(id) && p.formula.nodes[id].kind.Wand? && work.Valid()
      requires Fits(p.formula, stack, v, fr) && |fr.available| + |fr.unused| <= Room(id)
      modifies work
      ensures work.Valid() && work.steps >= old(work.steps)
      ensures r.Done? ==> (r.value <==>
                forall d: seq<nat>, count: nat |
                  |d| == |fr.available| && Within(d, |v.records|) && count <= |fr.unused| :: ChoiceRespects(id, fr, d, count))
      ensures r.Stop? ==> Excused(id, |fr.heap|, r.reason)
      decreases id, 2
    {
      var choices: seq<nat> := seq(|fr.available|, _ => 0);
      forall s: seq<nat> | |s| == |choices| ensures !Before(s, choices) {
        NothingBeforeZero(s, choices);
      }
      while true
        invariant work.Valid() && work.steps >= old(work.steps)
        invariant |choices| == |fr.available| && Within(choices, |v.records|)
        invariant forall d: seq<nat>, count: nat |
                    |d| == |fr.available| && Within(d, |v.records|) && Before(d, choices) && count <= |fr.unused| ::
                    ChoiceRespects(id, fr, d, count)
        decreases work.maxSteps - work.steps
      {
        :- work.Tick(1);
        :- work.Tick(|fr.available|);
        var respected :- TryChoice(id, fr, choices);
        if !respected {
          return Done(false);
        }
        var next, more := NextChoice(choices, |v.records|);
        if !more {
          return Done(true);
        }
        choices := next;
      }
    }

    method TryChoice(id: nat, fr: Frame, choices: seq<nat>) returns (r: Outcome<bool>)
      requires Ready(id) && p.formula.nodes[id].kind.Wand? && work.Valid()
      requires Fits(p.formula, stack, v, fr) && |fr.available| + |fr.unused| <= Room(id)
      requires |choices| == |fr.available| && Within(choices, |v.records|)
      modifies work
      ensures work.Valid() && work.steps >= old(work.steps)
      ensures r.Done? ==>
                (r.value <==> forall count: nat | count <= |fr.unused| :: ChoiceRespects(id, fr, choices, count))
      ensures r.Stop? ==> Excused(id, |fr.heap|, r.reason)
      decreases id, 1
    {
      var extension := Choice(fr.available, v.records, choices, |choices|);
      ChoiceCounted(fr.available, v.records, choices, |choices|);
      r := TryPaddings(id, fr.heap, extension, fr.unused, v.records[0]);
      assert forall count: nat | count <= |fr.unused| ::
          ChoiceRespects(id, fr, choices, count) == PaddingRespects(id, fr.heap, extension, fr.unused, count, v.records[0]);
    }

    ghost predicate PaddingRespects(id: nat, heap: Heap, base: Heap, unused: seq<nat>, count: nat, record: Record)
      requires Ready(id) && p.formula.nodes[id].kind.Wand? && count <= |unused|
    {
      Respects(id, heap, Padded(base, unused, count, record))
    }

    /** One choice, padded with 0, 1, ..., bound cells at unused addresses. */
    method TryPaddings(id: nat, heap: Heap, base: Heap, unused: seq<nat>, record: Record) returns (r: Outcome<bool>)
      requires Ready(id) && p.formula.nodes[id].kind.Wand? && work.Valid() && |base| + |unused| <= Room(id)
      modifies work
      ensures work.Valid() && work.steps >= old(work.steps)
      ensures r.Done? ==>
                (r.value <==> forall count: nat | count <= |unused| :: PaddingRespects(id, heap, base, unused, count, record))
      ensures r.Stop? ==> Excused(id, |heap|, r.reason)
      decreases id, 1, 0
    {
      hide Ready, Padded, Respects;
      var extension := base;
      var count: nat := 0;
      PaddedStep(base, unused, 0, record);
      while true
        invariant work.Valid() && work.steps >= old(work.steps)
        invariant count <= |unused| && extension == Padded(base, unused, count, record) && |extension| <= |base| + count
        invariant forall k: nat | k < count :: PaddingRespects(id, heap, base, unused, k, record)
        decreases |unused| - count
      {
        :- work.Tick(1);
        var respected :- TryExtension(id, heap, extension);
        assert respected == PaddingRespects(id, heap, base, unused, count, record);
        if !respected {
          return Done(false);
        }
        if count == |unused| {
          return Done(true);
        }
        PaddedStep(base, unused, count, record);
        BoundKey(extension, unused[count], record);
        extension := extension[unused[count] := record];
        count := count + 1;
      }
    }

    method TryExtension(id: nat, heap: Heap, extension: Heap) returns (r: Outcome<bool>)
      requires Ready(id) && p.formula.nodes[id].kind.Wand? && work.Valid() && |extension| <= Room(id)
      modifies work
      ensures work.Valid() && work.steps >= old(work.steps)
      ensures r.Done? ==> r.value == Respects(id, heap, extension)
      ensures r.Stop? ==> Excused(id, |heap|, r.reason)
      decreases id, 0
    {
      var c := p.formula.nodes[id].children;
      assert NodeFits(p.formula, id);
      ChildReady(id, 0);
      ChildReady(id, 1);
      HeapsCounted(heap, extension);
      var assumed :- HoldsChild(id, 0, extension, |heap|);
      if !assumed {
        return Done(true);
      }
      :- work.Tick(|heap|);
      :- work.Tick(|extension|);
      r := HoldsChild(id, 1, heap + extension, |heap|);
    }
  }

  datatype Model = Model(locations: Stack, heap: Heap)
  datatype Evaluation = Evaluation(holds: Option<bool>, steps: nat, reason: Option<StopReason>)

  /** The formula is nested too deeply, too wide, or over too many records or cells for the machine's addresses. */
  ghost predicate TooLarge(f: Formula, model: Model, maxDepth: nat)
    requires WellFormed(f)
  {
    || (exists i: nat :: i < |f.nodes| && (Depth(f, i) > maxDepth || Width(f, i) > UINT64_MAX))
    || |MentionedRecords(f, model.locations)| > UINT64_MAX
    || exists n: nat :: n <= |model.locations| && |model.heap| + Growth(f, n, f.root) >= UINT64_MAX
  }

  /** The public entry point: an answer is the textbook truth value.  Usable input of a size the
      machine can address gets one, unless a charge was refused. */
  method Evaluate(f: Formula, model: Model, maxSteps: nat, maxDepth: nat) returns (r: Evaluation, ghost halted: bool)
    ensures r.holds.Some? ==> WellFormed(f) && Interprets(f, model.locations, model.heap)
    ensures r.holds.Some? ==> r.holds.value == Sat(f, model.locations, f.root, model.heap)
    ensures r.holds.None? <==> r.reason.Some?
    ensures r.reason == Some(Malformed) ==> !WellFormed(f) || !Interprets(f, model.locations, model.heap)
    ensures WellFormed(f) && Interprets(f, model.locations, model.heap) && !TooLarge(f, model, maxDepth) && !halted ==> r.holds.Some?
    ensures r.steps <= maxSteps
  {
    var work := new Work(maxSteps, maxDepth);
    var outcome := EvaluateWith(f, model, work);
    halted := work.halted;
    match outcome
    case Done(holds) => return Evaluation(Some(holds), work.steps, None), halted;
    case Stop(reason) => return Evaluation(None, work.steps, Some(reason)), halted;
  }

  method EvaluateWith(f: Formula, model: Model, work: Work) returns (r: Outcome<bool>)
    requires work.Valid()
    modifies work
    ensures work.Valid()
    ensures r.Done? ==> WellFormed(f) && Interprets(f, model.locations, model.heap)
    ensures r.Done? ==> r.value == Sat(f, model.locations, f.root, model.heap)
    ensures r.Stop? && r.reason == Malformed ==> !WellFormed(f) || !Interprets(f, model.locations, model.heap)
    ensures r.Stop? && WellFormed(f) && r.reason != Malformed ==> work.halted || TooLarge(f, model, work.maxDepth)
  {
    hide Depth, Growth, Width, Sat, Adequate;
    var p :- Prepare(f, work);
    var v :- BuildVocabulary(p, model.locations, work);
    var heap :- CanonicalHeap(f, model.heap, work);
    var checker := new Checker(p, model.locations, v, work);
    assert Reaches(f, f.root, f.root);
    r := checker.Holds(f.root, heap);
  }
}
