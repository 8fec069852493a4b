/** When the validator's comparison of two arrays tells their true difference. */
module ArithModelArrays {
  import opened Basics
  import opened Terms
  import opened ArithModelTables
  import opened ArithModelSemantics
  import opened ArithModelValidator
  import opened ArithModelSorts

  lemma {:induction false} SameReflexive(w: World, sort: Sort, a: Meaning)
    ensures SameMeaning(w, sort, a, a)
    decreases sort
  {
    if sort.ArraySort? && a.Mapping? {
      forall s: Scalar | InDomain(w.universe, sort.index, s) ensures SameMeaning(w, sort.element, a.f(s), a.f(s)) {
        SameReflexive(w, sort.element, a.f(s));
      }
    }
  }

  lemma {:induction false} SameSymmetric(w: World, sort: Sort, a: Meaning, b: Meaning)
    requires SameMeaning(w, sort, a, b)
    ensures SameMeaning(w, sort, b, a)
    decreases sort
  {
    if sort.ArraySort? && a.Mapping? && b.Mapping? {
      forall s: Scalar | InDomain(w.universe, sort.index, s) ensures SameMeaning(w, sort.element, b.f(s), a.f(s)) {
        SameSymmetric(w, sort.element, a.f(s), b.f(s));
      }
    }
  }

  lemma {:induction false} SameTransitive(w: World, sort: Sort, a: Meaning, b: Meaning, c: Meaning)
    requires SameMeaning(w, sort, a, b) && SameMeaning(w, sort, b, c)
    ensures SameMeaning(w, sort, a, c)
    decreases sort
  {
    if sort.ArraySort? && a.Mapping? && b.Mapping? && c.Mapping? {
      forall s: Scalar | InDomain(w.universe, sort.index, s) ensures SameMeaning(w, sort.element, a.f(s), c.f(s)) {
        SameTransitive(w, sort.element, a.f(s), b.f(s), c.f(s));
      }
    }
  }

  /** What array contents denote, element by element. */
  function DenoteContents(t: Tables, w: World, sort: Sort, a: ArrayVal): Meaning
    requires sort.ArraySort?
  {
    Mapping((s: Scalar) => DenoteToken(t, w, sort.element, At(a, s)))
  }

  /** An index of the sort outside the keys. */
  ghost predicate Beyond(w: World, index: Sort, keys: set<Scalar>) {
    exists s: Scalar :: InDomain(w.universe, index, s) && s !in keys
  }

  /** Two tokens of a sort denote different things, as far as the tables resolve them. */
  ghost predicate TokensDiffer(t: Tables, w: World, sort: Sort, x: Scalar, y: Scalar)
    decreases sort, 1
  {
    if !sort.ArraySort? then x != y
    else if RecordOf(t, x).Some? && RecordOf(t, y).Some?
    then ContentsDiffer(t, w, sort, Contents(RecordOf(t, x).value), Contents(RecordOf(t, y).value))
    else !SameMeaning(w, sort, DenoteToken(t, w, sort, x), DenoteToken(t, w, sort, y))
  }

  /** They differ at a key, or in their defaults while the keys leave some index out. */
  ghost predicate ContentsDiffer(t: Tables, w: World, sort: Sort, a: ArrayVal, b: ArrayVal)
    requires sort.ArraySort?
    decreases sort, 0
  {
    var keys := if sort.index.BoolSort? then {Truth(false), Truth(true)} else a.overrides.Keys + b.overrides.Keys;
    || (exists key | key in keys :: TokensDiffer(t, w, sort.element, At(a, key), At(b, key)))
    || (Beyond(w, sort.index, keys) && TokensDiffer(t, w, sort.element, a.default, b.default))
  }

  lemma {:induction false} RecordElements(t: Tables, w: World, sort: Sort, r: Record)
    requires sort.ArraySort?
    ensures DenoteRecord(t, w, sort, r).Mapping?
    ensures forall s: Scalar :: DenoteRecord(t, w, sort, r).f(s) == DenoteToken(t, w, sort.element, Stored(r, s))
  {
    hide DenoteToken, Stored;
  }

  /** The contents that evaluation works with denote what the stored array does. */
  lemma {:induction false} RecordMeans(t: Tables, w: World, sort: Sort, r: Record)
    requires sort.ArraySort?
    ensures SameMeaning(w, sort, DenoteRecord(t, w, sort, r), DenoteContents(t, w, sort, Contents(r)))
  {
    hide DenoteToken, DenoteRecord, DenoteContents, SameMeaning, InDomain, Contents, Stored, At;
    var m, n := DenoteRecord(t, w, sort, r), DenoteContents(t, w, sort, Contents(r));
    RecordElements(t, w, sort, r);
    DenotesElements(t, w, sort, Contents(r));
    forall s: Scalar ensures SameMeaning(w, sort.element, m.f(s), n.f(s)) {
      OverrideStored(r, s);
      SameReflexive(w, sort.element, m.f(s));
    }
    SameMappings(w, sort, m, n);
  }

  /** The difference read off the tables is the difference in meaning. */
  lemma {:induction false} TokensDifferExact(t: Tables, w: World, sort: Sort, x: Scalar, y: Scalar)
    requires ScalarIndices(sort) && Belongs(t, w.universe, sort, x) && Belongs(t, w.universe, sort, y)
    ensures TokensDiffer(t, w, sort, x, y) <==> !SameMeaning(w, sort, DenoteToken(t, w, sort, x), DenoteToken(t, w, sort, y))
    decreases sort, 1
  {
    hide ContentsDiffer, DenoteContents, DenoteRecord, Contents, ContentsIn, SameMeaning, InDomain, Belongs, RecordIn;
    if !sort.ArraySort? {
      ScalarsAlike(t, w, sort, x, y);
    } else if RecordOf(t, x).Some? && RecordOf(t, y).Some? {
      var a, b := Contents(RecordOf(t, x).value), Contents(RecordOf(t, y).value);
      HandleSorted(t, w.universe, sort, x);
      HandleSorted(t, w.universe, sort, y);
      ContentsDifferExact(t, w, sort, a, b);
      RecordMeans(t, w, sort, RecordOf(t, x).value);
      RecordMeans(t, w, sort, RecordOf(t, y).value);
      SameBoth(w, sort, DenoteToken(t, w, sort, x), DenoteContents(t, w, sort, a), DenoteToken(t, w, sort, y), DenoteContents(t, w, sort, b));
    }
  }

  lemma {:induction false} SameAlong(w: World, sort: Sort, m: Meaning, a: Meaning, b: Meaning)
    requires SameMeaning(w, sort, m, a)
    ensures SameMeaning(w, sort, m, b) <==> SameMeaning(w, sort, a, b)
  {
    hide SameMeaning;
    SameSymmetric(w, sort, m, a);
    if SameMeaning(w, sort, m, b) {
      SameTransitive(w, sort, a, m, b);
    }
    if SameMeaning(w, sort, a, b) {
      SameTransitive(w, sort, m, a, b);
    }
  }

  lemma {:induction false} SameEither(w: World, sort: Sort, a: Meaning, b: Meaning)
    ensures SameMeaning(w, sort, a, b) <==> SameMeaning(w, sort, b, a)
  {
    hide SameMeaning;
    if SameMeaning(w, sort, a, b) {
      SameSymmetric(w, sort, a, b);
    }
    if SameMeaning(w, sort, b, a) {
      SameSymmetric(w, sort, b, a);
    }
  }

  /** Either side may be replaced by what means the same. */
  lemma {:induction false} SameBoth(w: World, sort: Sort, a: Meaning, x: Meaning, b: Meaning, y: Meaning)
    requires SameMeaning(w, sort, a, x) && SameMeaning(w, sort, b, y)
    ensures SameMeaning(w, sort, a, b) <==> SameMeaning(w, sort, x, y)
  {
    hide SameMeaning;
    SameAlong(w, sort, a, x, b);
    SameEither(w, sort, x, b);
    SameAlong(w, sort, b, y, x);
    SameEither(w, sort, y, x);
  }

  lemma {:induction false} ScalarsAlike(t: Tables, w: World, sort: Sort, x: Scalar, y: Scalar)
    requires !sort.ArraySort?
    ensures SameMeaning(w, sort, DenoteToken(t, w, sort, x), DenoteToken(t, w, sort, y)) <==> x == y
  {
  }

  ghost predicate SameAt(t: Tables, w: World, sort: Sort, a: ArrayVal, b: ArrayVal, s: Scalar)
    requires sort.ArraySort?
  {
    SameMeaning(w, sort.element, DenoteToken(t, w, sort.element, At(a, s)), DenoteToken(t, w, sort.element, At(b, s)))
  }

  lemma {:induction false} SameEverywhere(t: Tables, w: World, sort: Sort, a: ArrayVal, b: ArrayVal)
    requires sort.ArraySort?
    ensures SameMeaning(w, sort, DenoteContents(t, w, sort, a), DenoteContents(t, w, sort, b)) <==>
            forall s: Scalar | InDomain(w.universe, sort.index, s) :: SameAt(t, w, sort, a, b, s)
  {
    hide DenoteToken, DenoteContents, SameMeaning, InDomain, At;
    var m, n := DenoteContents(t, w, sort, a), DenoteContents(t, w, sort, b);
    DenotesElements(t, w, sort, a);
    DenotesElements(t, w, sort, b);
    SameMappings(w, sort, m, n);
    forall s: Scalar ensures SameAt(t, w, sort, a, b, s) == SameMeaning(w, sort.element, m.f(s), n.f(s)) {
    }
  }

  lemma {:induction false} SameMappings(w: World, sort: Sort, m: Meaning, n: Meaning)
    requires sort.ArraySort? && m.Mapping? && n.Mapping?
    ensures SameMeaning(w, sort, m, n) <==> forall s: Scalar | InDomain(w.universe, sort.index, s) :: SameMeaning(w, sort.element, m.f(s), n.f(s))
  {
    hide InDomain;
  }

  lemma {:induction false} DenotesElements(t: Tables, w: World, sort: Sort, a: ArrayVal)
    requires sort.ArraySort?
    ensures DenoteContents(t, w, sort, a).Mapping?
    ensures forall s: Scalar :: DenoteContents(t, w, sort, a).f(s) == DenoteToken(t, w, sort.element, At(a, s))
  {
    hide DenoteToken, At;
  }

  lemma {:induction false} ContentsDifferExact(t: Tables, w: World, sort: Sort, a: ArrayVal, b: ArrayVal)
    requires sort.ArraySort? && ScalarIndices(sort) && ContentsIn(t, w.universe, sort, a) && ContentsIn(t, w.universe, sort, b)
    ensures ContentsDiffer(t, w, sort, a, b) <==> !SameMeaning(w, sort, DenoteContents(t, w, sort, a), DenoteContents(t, w, sort, b))
    decreases sort, 0
  {
    hide TokensDiffer, ContentsDiffer, DenoteToken, DenoteContents, SameMeaning, ContentsIn, Belongs, InDomain, At;
    forall s: Scalar
      ensures TokensDiffer(t, w, sort.element, At(a, s), At(b, s)) <==> !SameAt(t, w, sort, a, b, s)
    {
      ElementSorted(t, w.universe, sort, a, s);
      ElementSorted(t, w.universe, sort, b, s);
      TokensDifferExact(t, w, sort.element, At(a, s), At(b, s));
    }
    SameEverywhere(t, w, sort, a, b);
    DifferSomewhere(t, w, sort, a, b);
  }

  /** Two arrays of a sort differ when they differ at some index of the sort. */
  lemma {:induction false} DifferSomewhere(t: Tables, w: World, sort: Sort, a: ArrayVal, b: ArrayVal)
    requires ContentsIn(t, w.universe, sort, a) && ContentsIn(t, w.universe, sort, b)
    ensures ContentsDiffer(t, w, sort, a, b) <==>
            exists s: Scalar :: InDomain(w.universe, sort.index, s) && TokensDiffer(t, w, sort.element, At(a, s), At(b, s))
  {
    hide TokensDiffer, Belongs;
    var keys := if sort.index.BoolSort? then {Truth(false), Truth(true)} else a.overrides.Keys + b.overrides.Keys;
    assert forall key | key in keys :: InDomain(w.universe, sort.index, key);
    if Beyond(w, sort.index, keys) && TokensDiffer(t, w, sort.element, a.default, b.default) {
      var s: Scalar :| InDomain(w.universe, sort.index, s) && s !in keys;
      assert At(a, s) == a.default && At(b, s) == b.default;
    }
    if s: Scalar :| InDomain(w.universe, sort.index, s) && TokensDiffer(t, w, sort.element, At(a, s), At(b, s)) {
      if s !in keys {
        assert Beyond(w, sort.index, keys);
      }
    }
  }

  function Integer(m: int): Scalar { Num(m as real) }

  /** From some number on, no integer is a key. */
  lemma {:induction false} LargeIntegersFresh(keys: set<Scalar>) returns (bound: int)
    ensures forall m: int | m >= bound :: Integer(m) !in keys
  {
    if keys == {} {
      bound := 0;
    } else {
      var k :| k in keys;
      var rest := LargeIntegersFresh(keys - {k});
      bound := if k.Num? && k.number.Floor + 1 > rest then k.number.Floor + 1 else rest;
      forall m: int | m >= bound ensures Integer(m) !in keys {
        assert Integer(m) !in keys - {k};
      }
    }
  }

  lemma {:induction false} NumbersBeyond(w: World, index: Sort, keys: set<Scalar>)
    requires index.IntSort? || index.RealSort?
    ensures Beyond(w, index, keys)
  {
    var n := LargeIntegersFresh(keys);
    assert InDomain(w.universe, index, Integer(n)) && Integer(n) !in keys;
  }

  /** A definite difference sits at an index where the two hold different tokens. */
  lemma {:induction false} DifferentTokens(t: Tables, w: World, sort: Sort, a: ArrayVal, b: ArrayVal) returns (s: Scalar)
    requires ContentsIn(t, w.universe, sort, a) && ContentsIn(t, w.universe, sort, b) && EqualArrays(a, b, sort.index) == Some(false)
    ensures InDomain(w.universe, sort.index, s) && At(a, s) != At(b, s)
  {
    hide Belongs;
    if sort.index.BoolSort? {
      s := Truth(At(a, Truth(false)) == At(b, Truth(false)));
    } else if key :| key in a.overrides && a.overrides[key] != At(b, key) {
      s := key;
    } else if key :| key in b.overrides && b.overrides[key] != At(a, key) {
      s := key;
    } else {
      NumbersBeyond(w, sort.index, a.overrides.Keys + b.overrides.Keys);
      s :| InDomain(w.universe, sort.index, s) && s !in a.overrides.Keys + b.overrides.Keys;
    }
  }

  lemma {:induction false} EqualTokens(w: World, index: Sort, a: ArrayVal, b: ArrayVal, s: Scalar)
    requires EqualArrays(a, b, index) == Some(true) && InDomain(w.universe, index, s)
    ensures At(a, s) == At(b, s)
  {
  }

  /** A definite equality is always right; a definite difference is right exactly when the tables
      hold one.  Arrays of scalars are compared exactly, and over numbers and truth values always. */
  lemma {:induction false} EqualArraysReal(t: Tables, w: World, sort: Sort, a: ArrayVal, b: ArrayVal)
    requires sort.ArraySort? && ScalarIndices(sort) && ContentsIn(t, w.universe, sort, a) && ContentsIn(t, w.universe, sort, b)
    ensures var same := SameMeaning(w, sort, DenoteContents(t, w, sort, a), DenoteContents(t, w, sort, b));
            var answer := EqualArrays(a, b, sort.index);
            && (answer == Some(true) ==> same)
            && (answer == Some(false) ==> (!same <==> ContentsDiffer(t, w, sort, a, b)))
            && (answer == Some(false) && !sort.element.ArraySort? ==> ContentsDiffer(t, w, sort, a, b))
            && (sort.index.BoolSort? || sort.index.IntSort? || sort.index.RealSort? ==> answer.Some?)
  {
    hide ContentsDiffer, ContentsIn, DenoteToken, DenoteContents, SameMeaning, EqualArrays, InDomain;
    ContentsDifferExact(t, w, sort, a, b);
    if EqualArrays(a, b, sort.index) == Some(true) {
      EqualMeansSame(t, w, sort, a, b);
    }
    if EqualArrays(a, b, sort.index) == Some(false) && !sort.element.ArraySort? {
      ScalarsSeparate(t, w, sort.element);
      SeparateReal(t, w, sort, a, b);
    }
    AlwaysDefinite(a, b, sort.index);
  }

  lemma {:induction false} EqualMeansSame(t: Tables, w: World, sort: Sort, a: ArrayVal, b: ArrayVal)
    requires sort.ArraySort? && EqualArrays(a, b, sort.index) == Some(true)
    ensures SameMeaning(w, sort, DenoteContents(t, w, sort, a), DenoteContents(t, w, sort, b))
  {
    hide DenoteToken, DenoteContents, SameMeaning, EqualArrays, InDomain, At;
    forall s: Scalar | InDomain(w.universe, sort.index, s) ensures SameAt(t, w, sort, a, b, s) {
      EqualTokens(w, sort.index, a, b, s);
      SameReflexive(w, sort.element, DenoteToken(t, w, sort.element, At(a, s)));
    }
    SameEverywhere(t, w, sort, a, b);
  }

  lemma {:induction false} AlwaysDefinite(a: ArrayVal, b: ArrayVal, index: Sort)
    ensures index.BoolSort? || index.IntSort? || index.RealSort? ==> EqualArrays(a, b, index).Some?
  {
  }

  /** Different tokens of the sort denote different things. */
  ghost predicate Separate(t: Tables, w: World, sort: Sort) {
    forall x: Scalar, y: Scalar | x != y && Belongs(t, w.universe, sort, x) && Belongs(t, w.universe, sort, y) :: TokensDiffer(t, w, sort, x, y)
  }

  lemma {:induction false} ScalarsSeparate(t: Tables, w: World, sort: Sort)
    requires !sort.ArraySort?
    ensures Separate(t, w, sort)
  {
  }

  lemma {:induction false} SeparateReal(t: Tables, w: World, sort: Sort, a: ArrayVal, b: ArrayVal)
    requires ContentsIn(t, w.universe, sort, a) && ContentsIn(t, w.universe, sort, b)
    requires Separate(t, w, sort.element) && EqualArrays(a, b, sort.index) == Some(false)
    ensures ContentsDiffer(t, w, sort, a, b)
  {
    hide ContentsDiffer, TokensDiffer, ContentsIn, Belongs, EqualArrays, InDomain;
    var s := DifferentTokens(t, w, sort, a, b);
    ElementSorted(t, w.universe, sort, a, s);
    ElementSorted(t, w.universe, sort, b, s);
    DifferSomewhere(t, w, sort, a, b);
  }
}
