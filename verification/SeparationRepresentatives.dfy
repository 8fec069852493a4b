/** The finite families the checker enumerates: cell assignments for a split and
    representative extensions for a wand, and why they stand for all heaps. */
module SeparationRepresentatives {
  import opened Basics
  import opened SeparationLogic
  import opened SeparationStabilisation
  import opened SeparationFormula
  import opened Odometer

  function Elements(s: seq<nat>): (e: set<nat>)
    ensures forall x :: x in e <==> x in s
  {
    set x | x in s
  }

  /** The cells whose flag has the given value. */
  function Side(h: Heap, addresses: seq<nat>, right: seq<bool>, flag: bool): Heap
    requires |addresses| == |right|
  {
    map i | 0 <= i < |right| && right[i] == flag && addresses[i] in h :: addresses[i] := h[addresses[i]]
  }

  /** A partition flag vector as counter digits. */
  function Digits(right: seq<bool>): (d: seq<nat>)
    ensures |d| == |right|
  {
    seq(|right|, i requires 0 <= i < |right| => if right[i] then 1 else 0)
  }

  lemma {:induction false} DigitsInjective(s: seq<bool>, t: seq<bool>)
    requires Digits(s) == Digits(t)
    ensures s == t
  {
    forall i | 0 <= i < |s| ensures s[i] == t[i] {
      assert Digits(s)[i] == Digits(t)[i];
    }
  }

  lemma {:induction false} SidesSplit(h: Heap, addresses: seq<nat>, right: seq<bool>)
    requires |addresses| == |right| && Distinct(addresses)
    requires forall x :: x in addresses <==> x in h
    ensures Splits(h, Side(h, addresses, right, false), Side(h, addresses, right, true))
  {
    hide Side;
    var a, b := Side(h, addresses, right, false), Side(h, addresses, right, true);
    forall x | x in h ensures x in a || x in b {
      assert x in addresses;
      var i :| 0 <= i < |addresses| && addresses[i] == x;
      SideAt(h, addresses, right, right[i], i);
    }
    SideInside(h, addresses, right, false);
    SideInside(h, addresses, right, true);
    SidesApart(h, addresses, right);
    assert h.Keys == a.Keys + b.Keys;
    assert h == a + b;
  }

  lemma {:induction false} SideAt(h: Heap, addresses: seq<nat>, right: seq<bool>, flag: bool, i: nat)
    requires i < |addresses| == |right| && addresses[i] in h && right[i] == flag
    ensures addresses[i] in Side(h, addresses, right, flag)
  {
  }

  /** A side keeps the records of the heap. */
  lemma {:induction false} SideInside(h: Heap, addresses: seq<nat>, right: seq<bool>, flag: bool)
    requires |addresses| == |right|
    ensures forall x | x in Side(h, addresses, right, flag) :: x in h && Side(h, addresses, right, flag)[x] == h[x]
  {
  }

  lemma {:induction false} SidesApart(h: Heap, addresses: seq<nat>, right: seq<bool>)
    requires |addresses| == |right| && Distinct(addresses)
    ensures forall x | x in Side(h, addresses, right, false) :: x !in Side(h, addresses, right, true)
  {
  }

  lemma {:induction false} SideIs(h: Heap, addresses: seq<nat>, right: seq<bool>, flag: bool, part: Heap)
    requires |addresses| == |right| && forall x | x in h :: x in addresses
    requires part.Keys <= h.Keys && forall x | x in part :: part[x] == h[x]
    requires forall i | 0 <= i < |right| :: (right[i] == flag) == (addresses[i] in part)
    ensures part == Side(h, addresses, right, flag)
  {
    var side := Side(h, addresses, right, flag);
    forall x | x in part ensures x in side {
      assert x in addresses;
      var i :| 0 <= i < |addresses| && addresses[i] == x;
    }
  }

  lemma {:induction false} EverySplit(h: Heap, addresses: seq<nat>, a: Heap, b: Heap) returns (right: seq<bool>)
    requires Splits(h, a, b)
    requires forall x :: x in addresses <==> x in h
    ensures |right| == |addresses|
    ensures a == Side(h, addresses, right, false) && b == Side(h, addresses, right, true)
  {
    right := seq(|addresses|, i requires 0 <= i < |addresses| => addresses[i] in b);
    forall i | 0 <= i < |addresses| ensures addresses[i] in a.Keys + b.Keys {
      assert addresses[i] in addresses;
    }
    SideIs(h, addresses, right, false, a);
    SideIs(h, addresses, right, true, b);
  }

  /** The extension a choice vector describes on the first `n` available addresses. */
  function Choice(available: seq<nat>, records: seq<Record>, choices: seq<nat>, n: nat): (e: Heap)
    requires |choices| == |available| && n <= |available| && Within(choices, |records|) && Distinct(available)
    ensures forall x :: x in e <==> exists i :: 0 <= i < n && available[i] == x && choices[i] > 0
    ensures forall i | 0 <= i < n && choices[i] > 0 :: e[available[i]] == records[choices[i] - 1]
  {
    if n == 0 then map[] else
    var e := Choice(available, records, choices, n - 1);
    if choices[n - 1] == 0 then e else e[available[n - 1] := records[choices[n - 1] - 1]]
  }

  /** A choice together with `count` cells at addresses nothing mentions. */
  function Padded(e: Heap, unused: seq<nat>, count: nat, record: Record): Heap
    requires count <= |unused|
  {
    e + map x | x in unused[..count] :: record
  }

  /** Padding grows one unused cell at a time, starting from the bare heap. */
  lemma {:induction false} PaddedStep(e: Heap, unused: seq<nat>, count: nat, record: Record)
    requires count <= |unused|
    ensures Padded(e, unused, 0, record) == e
    ensures count < |unused| ==>
              Padded(e, unused, count + 1, record) == Padded(e, unused, count, record)[unused[count] := record]
  {
    if count < |unused| {
      assert unused[..count + 1] == unused[..count] + [unused[count]];
    }
  }

  /** Sides, choices and paddings are no larger than what they are made of. */
  lemma {:induction false} SideCounted(h: Heap, addresses: seq<nat>, right: seq<bool>, flag: bool)
    requires |addresses| == |right|
    ensures |Side(h, addresses, right, flag)| <= |h|
  {
    var side := Side(h, addresses, right, flag);
    assert side.Keys <= h.Keys;
    SubsetCounted(side.Keys, h.Keys);
  }

  lemma {:induction false} SubsetCounted(a: set<nat>, b: set<nat>)
    requires a <= b
    ensures |a| <= |b|
  {
    assert b == a + (b - a);
  }

  ghost function First(s: seq<nat>, n: nat): set<nat>
    requires n <= |s|
  {
    if n == 0 then {} else First(s, n - 1) + {s[n - 1]}
  }

  lemma {:induction false} FirstCounted(s: seq<nat>, n: nat)
    requires n <= |s|
    ensures |First(s, n)| <= n && forall i | 0 <= i < n :: s[i] in First(s, n)
  {
    if n > 0 {
      FirstCounted(s, n - 1);
      var front := First(s, n - 1);
      SubsetCounted({s[n - 1]} - front, {s[n - 1]});
      assert First(s, n) == front + ({s[n - 1]} - front);
    }
  }

  lemma {:induction false} ChoiceCounted(available: seq<nat>, records: seq<Record>, choices: seq<nat>, n: nat)
    requires |choices| == |available| && n <= |available| && Within(choices, |records|) && Distinct(available)
    ensures |Choice(available, records, choices, n)| <= n
  {
    hide Choice, First, Within, Distinct;
    FirstCounted(available, n);
    SubsetCounted(Choice(available, records, choices, n).Keys, First(available, n));
  }

  lemma {:induction false} BoundKey(e: Heap, x: nat, record: Record)
    ensures |e[x := record]| <= |e| + 1
  {
    assert e[x := record].Keys == e.Keys + {x};
    SubsetCounted(e.Keys + {x} - e.Keys, {x});
    assert e.Keys + {x} == e.Keys + (e.Keys + {x} - e.Keys);
  }

  lemma {:induction false} HeapsCounted(h: Heap, e: Heap)
    ensures |h + e| <= |h| + |e|
  {
    assert (h + e).Keys == h.Keys + (e.Keys - h.Keys);
    SubsetCounted(e.Keys - h.Keys, e.Keys);
  }

  datatype Frame = Frame(heap: Heap, available: seq<nat>, unused: seq<nat>)

  /** The enumeration's surroundings: mentioned addresses not in the heap, and unused ones. */
  ghost predicate Fits(f: Formula, stack: Stack, v: Vocabulary, fr: Frame)
    requires WellFormed(f)
  {
    && Adequate(f, stack, v)
    && Distinct(fr.available) && Distinct(fr.unused)
    && (forall x :: x in fr.available <==> x in v.addresses && x !in fr.heap)
    && (forall x | x in fr.unused :: x != 0 && x !in fr.heap && x !in v.addresses)
  }

  function Representative(v: Vocabulary, fr: Frame, choices: seq<nat>, count: nat): Heap
    requires |choices| == |fr.available| && Within(choices, |v.records|) && Distinct(fr.available)
    requires count <= |fr.unused| && |v.records| > 0
  {
    Padded(Choice(fr.available, v.records, choices, |choices|), fr.unused, count, v.records[0])
  }

  lemma {:induction false} RepresentativeExtends(f: Formula, stack: Stack, v: Vocabulary, fr: Frame, choices: seq<nat>, count: nat)
    requires WellFormed(f) && Fits(f, stack, v, fr)
    requires |choices| == |fr.available| && Within(choices, |v.records|) && count <= |fr.unused|
    ensures Extends(f.fieldSorts, fr.heap, Representative(v, fr, choices, count))
  {
    var e := Representative(v, fr, choices, count);
    forall x | x in e ensures x != 0 && x !in fr.heap && RecordFits(f.fieldSorts, e[x]) {
      if x in fr.unused[..count] {
        assert x in fr.unused;
      } else {
        var i :| 0 <= i < |choices| && fr.available[i] == x && choices[i] > 0;
        assert x in fr.available;
      }
    }
  }

  /** The digit standing for the class of an extension's record at one address. */
  ghost function ClassDigit(f: Formula, stack: Stack, v: Vocabulary, e: Heap, x: nat): (d: nat)
    requires WellFormed(f) && Adequate(f, stack, v) && Typed(f.fieldSorts, e)
    ensures d <= |v.records| && (d > 0 <==> x in e)
    ensures x in e ==> SameClass(MentionedRecords(f, stack), v.records[d - 1], e[x])
  {
    if x !in e then 0 else
    var mentioned := MentionedRecords(f, stack);
    ClassListed(f, stack, v, e[x]);
    var k :| 0 <= k < |v.records| && SameClass(mentioned, v.records[k], e[x]);
    k + 1
  }

  lemma {:induction false} ClassListed(f: Formula, stack: Stack, v: Vocabulary, r: Record)
    requires WellFormed(f) && Adequate(f, stack, v) && RecordFits(f.fieldSorts, r)
    ensures exists k :: 0 <= k < |v.records| && SameClass(MentionedRecords(f, stack), v.records[k], r)
  {
    hide MentionedRecords, SameClass;
  }

  /** Every typed extension is similar, up to the bound, to one that is enumerated. */
  lemma {:induction false} EveryExtension(f: Formula, stack: Stack, v: Vocabulary, fr: Frame, bound: nat, e: Heap)
    returns (choices: seq<nat>, count: nat)
    requires WellFormed(f) && Fits(f, stack, v, fr) && |fr.unused| == bound
    requires Extends(f.fieldSorts, fr.heap, e)
    ensures |choices| == |fr.available| && Within(choices, |v.records|) && count <= bound
    ensures Similar(Elements(v.addresses), MentionedRecords(f, stack), bound, Representative(v, fr, choices, count), e)
  {
    hide SimilarCell, Representative, Anonymous, Elements, ClassDigit;
    var addresses := Elements(v.addresses);
    choices := seq(|fr.available|, i requires 0 <= i < |fr.available| => ClassDigit(f, stack, v, e, fr.available[i]));
    var total := |Anonymous(addresses, e)|;
    count := if total < bound then total else bound;
    RepresentsCells(f, stack, v, fr, e, choices, count);
    RepresentsCount(f, stack, v, fr, choices, count);
  }

  lemma {:induction false} RepresentsCount(f: Formula, stack: Stack, v: Vocabulary, fr: Frame, choices: seq<nat>, count: nat)
    requires WellFormed(f) && Fits(f, stack, v, fr)
    requires |choices| == |fr.available| && Within(choices, |v.records|) && count <= |fr.unused|
    ensures |Anonymous(Elements(v.addresses), Representative(v, fr, choices, count))| == count
  {
    var base := Choice(fr.available, v.records, choices, |choices|);
    forall x | x in base ensures x in Elements(v.addresses) {
      var i :| 0 <= i < |choices| && fr.available[i] == x;
      assert x in fr.available;
    }
    PaddingCount(Elements(v.addresses), base, fr.unused, count, v.records[0]);
  }

  lemma {:induction false} RepresentsCells(f: Formula, stack: Stack, v: Vocabulary, fr: Frame, e: Heap, choices: seq<nat>, count: nat)
    requires WellFormed(f) && Fits(f, stack, v, fr) && Extends(f.fieldSorts, fr.heap, e)
    requires |choices| == |fr.available| && Within(choices, |v.records|) && count <= |fr.unused|
    requires forall i | 0 <= i < |choices| :: choices[i] == ClassDigit(f, stack, v, e, fr.available[i])
    ensures forall a | a in v.addresses ::
              SimilarCell(MentionedRecords(f, stack), a, Representative(v, fr, choices, count), e)
  {
    forall a | a in v.addresses
      ensures SimilarCell(MentionedRecords(f, stack), a, Representative(v, fr, choices, count), e)
    {
      hide *;
      RepresentsCell(f, stack, v, fr, e, choices, count, a);
    }
  }

  lemma {:induction false} RepresentsCell(f: Formula, stack: Stack, v: Vocabulary, fr: Frame, e: Heap, choices: seq<nat>, count: nat, a: nat)
    requires WellFormed(f) && Fits(f, stack, v, fr) && Extends(f.fieldSorts, fr.heap, e)
    requires |choices| == |fr.available| && Within(choices, |v.records|) && count <= |fr.unused|
    requires forall i | 0 <= i < |choices| :: choices[i] == ClassDigit(f, stack, v, e, fr.available[i])
    requires a in v.addresses
    ensures SimilarCell(MentionedRecords(f, stack), a, Representative(v, fr, choices, count), e)
  {
    assert a !in fr.unused[..count];
    if a in fr.heap {
      assert a !in fr.available;
    } else {
      assert a in fr.available;
      var i :| 0 <= i < |fr.available| && fr.available[i] == a;
      assert choices[i] == ClassDigit(f, stack, v, e, a);
    }
  }

  lemma {:induction false} PaddingCount(addresses: set<nat>, e: Heap, unused: seq<nat>, count: nat, record: Record)
    requires Distinct(unused) && count <= |unused|
    requires e.Keys <= addresses && forall x | x in unused :: x !in addresses
    ensures |Anonymous(addresses, Padded(e, unused, count, record))| == count
  {
    var prefix := unused[..count];
    assert forall x | x in prefix :: x in unused;
    assert Anonymous(addresses, Padded(e, unused, count, record)) == Elements(prefix);
    DistinctCount(prefix);
  }

  lemma {:induction false} DistinctCount(s: seq<nat>)
    requires Distinct(s)
    ensures |Elements(s)| == |s|
  {
    if |s| > 0 {
      var rest := s[1..];
      DistinctCount(rest);
      assert forall x :: x in s <==> x == s[0] || x in rest;
      assert Elements(s) == {s[0]} + Elements(rest);
      assert s[0] !in rest;
    }
  }
}
