/** Width stabilisation: which heaps no formula of a given width can tell apart,
    and why finitely many extension heaps represent all of them. */
module SeparationStabilisation {
  import opened SeparationLogic

  /** The cells at addresses no atom mentions. */
  function Anonymous(addresses: set<nat>, h: Heap): set<nat> {
    h.Keys - addresses
  }

  /** Records an atom cannot distinguish: equal, or both unmentioned. */
  predicate SameClass(records: set<Record>, x: Record, y: Record) {
    x == y || (x !in records && y !in records)
  }

  /** Equal up to a cap: the counts agree, or both reach the cap. */
  predicate AgreeUpTo(n: nat, x: nat, y: nat) {
    x == y || (n <= x && n <= y)
  }

  predicate SimilarCell(records: set<Record>, a: nat, g: Heap, h: Heap) {
    (a in g <==> a in h) && (a in g ==> SameClass(records, g[a], h[a]))
  }

  ghost predicate Similar(addresses: set<nat>, records: set<Record>, n: nat, g: Heap, h: Heap) {
    && (forall a | a in addresses :: SimilarCell(records, a, g, h))
    && AgreeUpTo(n, |Anonymous(addresses, g)|, |Anonymous(addresses, h)|)
  }

  lemma {:induction false} SubsetOfSize<T>(s: set<T>, k: nat) returns (t: set<T>)
    requires k <= |s|
    ensures t <= s && |t| == k && |s - t| == |s| - k
  {
    if k == 0 {
      t := {};
    } else {
      var x :| x in s;
      var others := s - {x};
      var rest := SubsetOfSize(others, k - 1);
      t := rest + {x};
      assert s - t == others - rest;
    }
  }

  /** Finitely many naturals never exhaust the positive ones. */
  lemma {:induction false} FreshSet(used: set<nat>, k: nat) returns (t: set<nat>)
    ensures |t| == k && t !! used && 0 !in t
  {
    if k == 0 {
      t := {};
    } else {
      var rest := FreshSet(used, k - 1);
      var bound := UpperBound(used + rest);
      t := rest + {bound + 1};
    }
  }

  lemma {:induction false} UpperBound(s: set<nat>) returns (m: nat)
    ensures forall x | x in s :: x <= m
  {
    if s == {} {
      m := 0;
    } else {
      var x :| x in s;
      var rest := UpperBound(s - {x});
      m := Max(x, rest);
      forall y | y in s ensures y <= m { assert y == x || y in s - {x}; }
    }
  }

  lemma {:induction false} AnonymousKeys(addresses: set<nat>, a: Heap, b: Heap)
    requires a.Keys !! b.Keys
    ensures Anonymous(addresses, a) !! Anonymous(addresses, b)
    ensures Anonymous(addresses, a + b) == Anonymous(addresses, a) + Anonymous(addresses, b)
  {
  }

  lemma {:induction false} AnonymousUnion(addresses: set<nat>, a: Heap, b: Heap)
    requires a.Keys !! b.Keys
    ensures |Anonymous(addresses, a + b)| == |Anonymous(addresses, a)| + |Anonymous(addresses, b)|
  {
    AnonymousKeys(addresses, a, b);
  }

  /** Similarity is preserved by disjoint union, and widths cap the sums. */
  lemma {:induction false} SimilarUnion(addresses: set<nat>, records: set<Record>, m: nat, n: nat, g: Heap, h: Heap, d: Heap, e: Heap)
    requires Similar(addresses, records, n, g, h) && Similar(addresses, records, m, d, e) && n <= m
    requires g.Keys !! d.Keys && h.Keys !! e.Keys
    ensures Similar(addresses, records, n, g + d, h + e)
  {
    AnonymousUnion(addresses, g, d);
    AnonymousUnion(addresses, h, e);
    forall a | a in addresses ensures SimilarCell(records, a, g + d, h + e) {
      assert SimilarCell(records, a, g, h) && SimilarCell(records, a, d, e);
    }
  }

  /** A heap without anonymous cells is matched, cell for cell, by any similar one. */
  lemma {:induction false} NoAnonymous(addresses: set<nat>, records: set<Record>, n: nat, g: Heap, h: Heap)
    requires Similar(addresses, records, n, g, h) && 1 <= n
    requires Anonymous(addresses, g) == {}
    ensures h.Keys == g.Keys
  {
    assert Anonymous(addresses, h) == {};
    forall x ensures x in g <==> x in h {
      assert x in g ==> x in addresses || x in Anonymous(addresses, g);
      assert x in h ==> x in addresses || x in Anonymous(addresses, h);
      assert x in addresses ==> SimilarCell(records, x, g, h);
    }
  }

  lemma {:induction false} PointsToStable(addresses: set<nat>, records: set<Record>, n: nat, g: Heap, h: Heap, a: nat, r: Record)
    requires Similar(addresses, records, n, g, h) && 1 <= n
    requires a in addresses && r in records && g == map[a := r]
    ensures h == map[a := r]
  {
    assert Anonymous(addresses, g) == {};
    NoAnonymous(addresses, records, n, g, h);
    assert SimilarCell(records, a, g, h);
  }

  /** How many of the other heap's anonymous cells to hand to the left part. */
  function LeftShare(m: nat, n: nat, left: nat, right: nat, total: nat): (k: nat)
    requires AgreeUpTo(m + n, left + right, total)
    ensures k <= total && AgreeUpTo(m, left, k) && AgreeUpTo(n, right, total - k)
  {
    if left + right == total then left
    else if right < n then total - right
    else if left < m then left
    else m
  }

  function Part(h: Heap, keys: set<nat>): Heap {
    map x | x in h && x in keys :: h[x]
  }

  lemma {:induction false} PartAnonymous(addresses: set<nat>, h: Heap, known: set<nat>, share: set<nat>)
    requires known <= addresses && share <= Anonymous(addresses, h)
    ensures Anonymous(addresses, Part(h, known + share)) == share
  {
  }

  lemma {:induction false} PartSimilar(addresses: set<nat>, records: set<Record>, n: nat, g: Heap, a: Heap, b: Heap, h: Heap, share: set<nat>)
    requires Splits(g, a, b) && forall x | x in addresses :: SimilarCell(records, x, g, h)
    requires share <= Anonymous(addresses, h) && AgreeUpTo(n, |Anonymous(addresses, a)|, |share|)
    ensures Similar(addresses, records, n, a, Part(h, a.Keys * addresses + share))
  {
    var c := Part(h, a.Keys * addresses + share);
    PartAnonymous(addresses, h, a.Keys * addresses, share);
    forall x | x in addresses ensures SimilarCell(records, x, a, c) {
    }
  }

  /** A split of one heap is matched by a split of any similar one. */
  lemma {:induction false} MatchSplit(addresses: set<nat>, records: set<Record>, m: nat, n: nat, g: Heap, a: Heap, b: Heap, h: Heap)
    returns (c: Heap, d: Heap)
    requires Splits(g, a, b) && Similar(addresses, records, m + n, g, h)
    ensures Splits(h, c, d)
    ensures Similar(addresses, records, m, a, c) && Similar(addresses, records, n, b, d)
  {
    AnonymousUnion(addresses, a, b);
    var total := Anonymous(addresses, h);
    var k := LeftShare(m, n, |Anonymous(addresses, a)|, |Anonymous(addresses, b)|, |total|);
    var share := SubsetOfSize(total, k);
    var others := total - share;
    c := Part(h, a.Keys * addresses + share);
    d := Part(h, b.Keys * addresses + others);
    SplitsCommute(g, a, b);
    PartSimilar(addresses, records, m, g, a, b, h, share);
    PartSimilar(addresses, records, n, g, b, a, h, others);
    PartsSplit(addresses, records, g, a, b, h, share);
  }

  lemma {:induction false} SplitsCommute(g: Heap, a: Heap, b: Heap)
    requires Splits(g, a, b)
    ensures Splits(g, b, a)
  {
    assert a + b == b + a;
  }

  lemma {:induction false} PartsSplit(addresses: set<nat>, records: set<Record>, g: Heap, a: Heap, b: Heap, h: Heap, share: set<nat>)
    requires Splits(g, a, b) && forall x | x in addresses :: SimilarCell(records, x, g, h)
    requires share <= Anonymous(addresses, h)
    ensures Splits(h, Part(h, a.Keys * addresses + share), Part(h, b.Keys * addresses + (Anonymous(addresses, h) - share)))
  {
    var c := Part(h, a.Keys * addresses + share);
    var d := Part(h, b.Keys * addresses + (Anonymous(addresses, h) - share));
    forall x | x in h ensures x in c.Keys + d.Keys {
      if x in addresses {
        assert SimilarCell(records, x, g, h);
      } else {
        assert x in Anonymous(addresses, h);
      }
    }
    assert h == c + d;
  }

  /** An extension of one heap is matched by a similar extension of any other. */
  lemma {:induction false} MatchExtension(sorts: seq<FieldSort>, addresses: set<nat>, records: set<Record>, n: nat, m: nat, g: Heap, h: Heap, e: Heap)
    returns (d: Heap)
    requires Similar(addresses, records, n, g, h) && Extends(sorts, h, e)
    ensures Extends(sorts, g, d) && Similar(addresses, records, m, d, e)
  {
    var anonymous := Anonymous(addresses, e);
    var unused := FreshSet(g.Keys + addresses, |anonymous|);
    var known := map a | a in e && a in addresses :: e[a];
    if anonymous == {} {
      d := known;
      assert Anonymous(addresses, d) == {};
    } else {
      var x :| x in anonymous;
      d := known + map a | a in unused :: e[x];
      assert Anonymous(addresses, d) == unused;
    }
    forall a | a in addresses ensures SimilarCell(records, a, d, e) {
      assert SimilarCell(records, a, g, h);
    }
    forall a | a in d ensures a !in g {
      if a in addresses {
        assert SimilarCell(records, a, g, h);
      }
    }
  }

  /** Similar heaps satisfy the same subformulas, for every connective. */
  lemma {:induction false} Stabilisation(f: Formula, stack: Stack, addresses: set<nat>, records: set<Record>, id: nat, n: nat, g: Heap, h: Heap)
    requires WellFormed(f) && id < |f.nodes|
    requires Covers(f, stack, addresses, records, id)
    requires Width(f, id) <= n && Similar(addresses, records, n, g, h)
    ensures Sat(f, stack, id, g) == Sat(f, stack, id, h)
    decreases id, 2
  {
    if Sat(f, stack, id, g) {
      Transfer(f, stack, addresses, records, id, n, g, h);
    } else if Sat(f, stack, id, h) {
      Transfer(f, stack, addresses, records, id, n, h, g);
    }
  }

  lemma {:induction false} SimilarReflexive(addresses: set<nat>, records: set<Record>, n: nat, g: Heap)
    ensures Similar(addresses, records, n, g, g)
  {
  }

  lemma {:induction false} Transfer(f: Formula, stack: Stack, addresses: set<nat>, records: set<Record>, id: nat, n: nat, g: Heap, h: Heap)
    requires WellFormed(f) && id < |f.nodes|
    requires Covers(f, stack, addresses, records, id)
    requires Width(f, id) <= n && Similar(addresses, records, n, g, h)
    requires Sat(f, stack, id, g)
    ensures Sat(f, stack, id, h)
    decreases id, 1
  {
    assert NodeFits(f, id);
    var c := f.nodes[id].children;
    match f.nodes[id].kind
    case Boolean(_) =>
    case Relation(_, _, _) =>
    case Emp =>
    case PointsTo(cell, fields) =>
      PointsToStable(addresses, records, n, g, h, At(stack, cell), Instantiate(fields, stack));
    case Not =>
      Stabilisation(f, stack, addresses, records, c[0], n, g, h);
    case And =>
      Stabilisation(f, stack, addresses, records, c[0], n, g, h);
      Stabilisation(f, stack, addresses, records, c[1], n, g, h);
    case Or =>
      Stabilisation(f, stack, addresses, records, c[0], n, g, h);
      Stabilisation(f, stack, addresses, records, c[1], n, g, h);
    case Star =>
      TransferStar(f, stack, addresses, records, id, n, g, h);
    case Wand =>
      TransferWand(f, stack, addresses, records, id, n, g, h);
  }

  lemma {:induction false} TransferStar(f: Formula, stack: Stack, addresses: set<nat>, records: set<Record>, id: nat, n: nat, g: Heap, h: Heap)
    requires WellFormed(f) && id < |f.nodes| && f.nodes[id].kind.Star?
    requires Covers(f, stack, addresses, records, id)
    requires Width(f, id) <= n && Similar(addresses, records, n, g, h)
    requires Sat(f, stack, id, g)
    ensures Sat(f, stack, id, h)
    decreases id, 0
  {
    assert NodeFits(f, id);
    var c := f.nodes[id].children;
    var a, b :| Splits(g, a, b) && Sat(f, stack, c[0], a) && Sat(f, stack, c[1], b);
    var left := Width(f, c[0]);
    var a', b' := MatchSplit(addresses, records, left, n - left, g, a, b, h);
    Stabilisation(f, stack, addresses, records, c[0], left, a, a');
    Stabilisation(f, stack, addresses, records, c[1], n - left, b, b');
  }

  lemma {:induction false} TransferWand(f: Formula, stack: Stack, addresses: set<nat>, records: set<Record>, id: nat, n: nat, g: Heap, h: Heap)
    requires WellFormed(f) && id < |f.nodes| && f.nodes[id].kind.Wand?
    requires Covers(f, stack, addresses, records, id)
    requires Width(f, id) <= n && Similar(addresses, records, n, g, h)
    requires Sat(f, stack, id, g)
    ensures Sat(f, stack, id, h)
    decreases id, 0
  {
    assert NodeFits(f, id);
    var c := f.nodes[id].children;
    forall e: Heap | Extends(f.fieldSorts, h, e) && Sat(f, stack, c[0], e)
      ensures Sat(f, stack, c[1], h + e)
    {
      var m := Max(Width(f, c[0]), n);
      var d := MatchExtension(f.fieldSorts, addresses, records, n, m, g, h, e);
      Stabilisation(f, stack, addresses, records, c[0], m, d, e);
      SimilarUnion(addresses, records, m, n, g, h, d, e);
      Stabilisation(f, stack, addresses, records, c[1], n, g + d, h + e);
    }
  }
}
