/** What a definite evaluation says about the interpretations that extend the tables. */
module ArithModelSoundness {
  import opened Basics
  import opened Terms
  import opened ArithModelTables
  import opened ArithModelSemantics
  import opened ArithModelValidator
  import opened ArithModelSorts
  import opened ArithModelArrays
  import opened ArithModelExtensions

  /** Known scalars are the meanings. */
  ghost predicate Agreeing(vs: seq<Value>, ms: seq<Meaning>) {
    |vs| == |ms| && forall k: nat | k < |vs| && vs[k].Known? :: ms[k] == Plain(vs[k].scalar)
  }

  /** Where a reading is known it is the meaning's. */
  ghost predicate Agree<T>(xs: seq<Option<T>>, ys: seq<Option<T>>) {
    |xs| == |ys| && forall k: nat | k < |xs| && xs[k].Some? :: xs[k] == ys[k]
  }

  lemma {:induction false} TotalAgrees(xs: seq<Option<real>>, ys: seq<Option<real>>)
    requires Agree(xs, ys)
    ensures Total(xs).Some? ==> Total(ys) == Total(xs)
  {
    if xs != [] {
      TotalAgrees(xs[..|xs| - 1], ys[..|xs| - 1]);
    }
  }

  lemma {:induction false} ProductAgrees(xs: seq<Option<real>>, ys: seq<Option<real>>)
    requires Agree(xs, ys)
    ensures Product(xs).Some? ==> Product(ys) == Product(xs)
  {
    if xs != [] && Product(xs).Some? {
      var n := |xs| - 1;
      ProductAgrees(xs[..n], ys[..n]);
    }
  }

  lemma {:induction false} ParityAgrees(xs: seq<Option<bool>>, ys: seq<Option<bool>>)
    requires Agree(xs, ys)
    ensures Parity(xs).Some? ==> Parity(ys) == Parity(xs)
  {
    if xs != [] {
      ParityAgrees(xs[..|xs| - 1], ys[..|xs| - 1]);
    }
  }

  lemma {:induction false} SumSnoc(xs: seq<Option<real>>, x: Option<real>)
    ensures SumOf(xs + [x]) == if SumOf(xs).Some? && x.Some? then Some(SumOf(xs).value + x.value) else None
  {
    if xs != [] {
      assert (xs + [x])[1..] == xs[1..] + [x];
      SumSnoc(xs[1..], x);
    }
  }

  /** Adding from the left is the sum. */
  lemma {:induction false} TotalIsSum(xs: seq<Option<real>>)
    ensures Total(xs) == SumOf(xs)
  {
    if xs != [] {
      var n := |xs| - 1;
      TotalIsSum(xs[..n]);
      SumSnoc(xs[..n], xs[n]);
      assert xs == xs[..n] + [xs[n]];
    }
  }

  lemma {:induction false} MultipliedAssociates(a: Option<real>, b: Option<real>, c: Option<real>)
    ensures Multiplied(a, Multiplied(b, c)) == Multiplied(Multiplied(a, b), c)
  {
    if a.Some? && b.Some? && c.Some? {
      var p, q := Multiplied(b, c).value, Multiplied(a, b).value;
      Regrouped(a.value, b.value, c.value, p, q);
      assert Multiplied(a, Some(p)).value == Multiplied(Some(q), c).value;
    }
  }

  lemma {:induction false} Regrouped(x: real, y: real, z: real, p: real, q: real)
    requires p == y * z && q == x * y
    ensures x * p == q * z
  {
  }

  lemma {:induction false} MultipliedOne(a: Option<real>)
    ensures Multiplied(a, Some(1.0)) == a && Multiplied(Some(1.0), a) == a
  {
  }

  lemma {:induction false} ProductSnoc(xs: seq<Option<real>>, x: Option<real>)
    ensures ProductOf(xs + [x]) == Multiplied(ProductOf(xs), x)
  {
    hide Multiplied;
    if xs == [] {
      assert (xs + [x])[1..] == [];
      MultipliedOne(x);
    } else {
      assert (xs + [x])[1..] == xs[1..] + [x];
      ProductSnoc(xs[1..], x);
      MultipliedAssociates(xs[0], ProductOf(xs[1..]), x);
    }
  }

  /** Multiplying from the left is the product. */
  lemma {:induction false} ProductIsProduct(xs: seq<Option<real>>)
    ensures Product(xs) == ProductOf(xs)
  {
    if xs != [] {
      hide Times, Multiplied;
      var n := |xs| - 1;
      ProductIsProduct(xs[..n]);
      ProductSnoc(xs[..n], xs[n]);
      assert xs == xs[..n] + [xs[n]];
      TimesMultiplied(ProductOf(xs[..n]), xs[n]);
    }
  }

  lemma {:induction false} TimesMultiplied(a: Option<real>, b: Option<real>)
    ensures Times(a, b) == Multiplied(a, b)
  {
  }

  lemma {:induction false} CountSnoc(bs: seq<Option<bool>>, b: Option<bool>)
    ensures CountTrue(bs + [b]) ==
            if CountTrue(bs).Some? && b.Some? then Some(CountTrue(bs).value + if b.value then 1 else 0) else None
  {
    if bs != [] {
      assert (bs + [b])[1..] == bs[1..] + [b];
      CountSnoc(bs[1..], b);
    }
  }

  /** The running exclusive disjunction says whether an odd number is true. */
  lemma {:induction false} ParityIsOdd(bs: seq<Option<bool>>)
    ensures Parity(bs).Some? <==> CountTrue(bs).Some?
    ensures Parity(bs).Some? ==> Parity(bs).value == (CountTrue(bs).value % 2 == 1)
  {
    if bs != [] {
      var n := |bs| - 1;
      ParityIsOdd(bs[..n]);
      CountSnoc(bs[..n], bs[n]);
      assert bs == bs[..n] + [bs[n]];
    }
  }

  lemma {:induction false} JunctionSound(vs: seq<Value>, ms: seq<Meaning>, identity: bool, unknown: bool)
    requires Agreeing(vs, ms)
    ensures Junction(vs, identity, unknown) == Known(Truth(!identity)) ==> Plain(Truth(!identity)) in ms
    ensures Junction(vs, identity, unknown) == Known(Truth(identity)) ==> !unknown && Plain(Truth(!identity)) !in ms
    ensures var v := Junction(vs, identity, unknown); v.Unknown? || v == Known(Truth(identity)) || v == Known(Truth(!identity))
  {
    if vs != [] {
      assert ms == [ms[0]] + ms[1..];
      JunctionSound(vs[1..], ms[1..], identity, unknown || vs[0].Unknown?);
    }
  }

  /** Over truth values and unknowns: a deciding operand decides whatever else is unknown, and
      only an unknown operand without a deciding one leaves the junction unknown. */
  lemma {:induction false} JunctionExact(vs: seq<Value>, identity: bool, unknown: bool)
    requires forall k: nat | k < |vs| :: vs[k].Unknown? || BoolOf(vs[k]).Some?
    ensures Junction(vs, identity, unknown) == Known(Truth(!identity)) <==> Known(Truth(!identity)) in vs
    ensures Junction(vs, identity, unknown) == Known(Truth(identity)) <==> !unknown && forall v | v in vs :: v == Known(Truth(identity))
    ensures Junction(vs, identity, unknown).Unknown? <==> Known(Truth(!identity)) !in vs && (unknown || Unknown in vs)
  {
    if vs != [] {
      assert vs == [vs[0]] + vs[1..];
      JunctionExact(vs[1..], identity, unknown || vs[0].Unknown?);
    }
  }

  /** There is only one quotient with a remainder in range. */
  lemma {:induction false} EuclideanUnique(a: int, b: int, q: int, r: int)
    requires b != 0 && a == b * q + r && 0 <= r < if b < 0 then -b else b
    ensures q == a / b && r == a % b
  {
    var p, s := a / b, a % b;
    assert b * (q - p) == s - r;
    if q != p {
      OutOfRange(b, q - p);
    }
  }

  lemma {:induction false} OutOfRange(b: int, d: int)
    requires b != 0 && d != 0
    ensures b * d >= (if b < 0 then -b else b) || b * d <= -(if b < 0 then -b else b)
  {
  }

  lemma {:induction false} ByMagnitude(a: int, b: int)
    requires b != 0
    ensures QuotientOf(a, b) == a / b && RemainderOf(a, b) == a % b
  {
    if b < 0 {
      EuclideanUnique(a, b, -(a / -b), a % -b);
    }
  }

  lemma {:induction false} DivisionSound(t: Tables, i: Interpretation, sort: Sort, a: real, b: real, open: Meaning)
    requires ExtendsZero(t.divZero, i.divZero) && DivValue(t, sort, a, b).Known?
    ensures Division(i, sort, a, b, open) == Plain(DivValue(t, sort, a, b).scalar)
  {
    if b != 0.0 && sort.IntSort? && Integral(a) && Integral(b) {
      ByMagnitude(a.Floor, b.Floor);
    }
  }

  lemma {:induction false} RemainderSound(t: Tables, i: Interpretation, a: real, b: real, open: Meaning)
    requires ExtendsZero(t.modZero, i.modZero) && ModValue(t, a, b).Known?
    ensures Remainder(i, a, b, open) == Plain(ModValue(t, a, b).scalar)
  {
    if b != 0.0 && Integral(a) && Integral(b) {
      ByMagnitude(a.Floor, b.Floor);
    }
  }

  /** Children's values have their sorts and match their meanings. */
  ghost predicate ChildrenSound(ir: Dag, t: Tables, w: World, id: nat, vs: seq<Value>, ms: seq<Meaning>)
    requires Ordered(ir) && id < |ir|
  {
    && |vs| == |ms| == |ir[id].children|
    && AllHaveSort(t, w.universe, ChildSorts(ir, id), vs) && AllMatch(t, w, ChildSorts(ir, id), vs, ms)
  }

  lemma {:induction false} SoundAgrees(ir: Dag, t: Tables, w: World, id: nat, vs: seq<Value>, ms: seq<Meaning>)
    requires Ordered(ir) && id < |ir| && ChildrenSound(ir, t, w, id, vs, ms)
    ensures Agreeing(vs, ms)
  {
    hide SameMeaning, DenoteContents, ContentsIn, InDomain;
    var sorts := ChildSorts(ir, id);
    forall k: nat | k < |vs| && vs[k].Known? ensures ms[k] == Plain(vs[k].scalar) {
      assert Matches(t, w, sorts[k], vs[k], ms[k]);
    }
  }

  lemma {:induction false} ArithmeticSound(ir: Dag, t: Tables, i: Interpretation, id: nat, vs: seq<Value>, ms: seq<Meaning>)
    requires Ordered(ir) && id < |ir| && |vs| == |ir[id].children| && Agreeing(vs, ms)
    requires ExtendsZero(t.divZero, i.divZero) && ExtendsZero(t.modZero, i.modZero)
    requires var op := ir[id].op; op.Add? || op.Sub? || op.Mul? || op.Div? || op.Mod? || op.Neg? || op.Abs? || op.ToInt? || op.IsInt?
    ensures Matches(t, i.world, ir[id].sort, Step(ir, t, id, vs), Denote(ir, i, id, ms))
  {
    hide Total, Product, SumOf, ProductOf, DivValue, ModValue, Division, Remainder, SameMeaning, DenoteContents;
    var xs, ys := NumbersOf(vs), Numbers(ms);
    match ir[id].op
    case Add =>
      TotalAgrees(xs, ys);
      TotalIsSum(ys);
    case Mul =>
      ProductAgrees(xs, ys);
      ProductIsProduct(ys);
    case Sub =>
      if vs != [] {
        TotalAgrees(NumbersOf(vs[1..]), Numbers(ms[1..]));
        TotalIsSum(Numbers(ms[1..]));
      }
    case Div =>
      if |vs| == 2 && xs[0].Some? && xs[1].Some? {
        if DivValue(t, ir[id].sort, xs[0].value, xs[1].value).Known? {
          DivisionSound(t, i, ir[id].sort, xs[0].value, xs[1].value, i.other(id));
        }
        ScalarOrUnknown(t, ir[id].sort, xs[0].value, xs[1].value);
      }
    case Mod =>
      if |vs| == 2 && xs[0].Some? && xs[1].Some? {
        if ModValue(t, xs[0].value, xs[1].value).Known? {
          RemainderSound(t, i, xs[0].value, xs[1].value, i.other(id));
        }
        ScalarOrUnknown(t, ir[id].sort, xs[0].value, xs[1].value);
      }
    case _ =>
  }

  lemma {:induction false} ScalarOrUnknown(t: Tables, sort: Sort, a: real, b: real)
    ensures !DivValue(t, sort, a, b).Array? && !ModValue(t, a, b).Array?
  {
  }

  lemma {:induction false} BooleanSound(ir: Dag, t: Tables, i: Interpretation, id: nat, vs: seq<Value>, ms: seq<Meaning>)
    requires Ordered(ir) && id < |ir| && |vs| == |ir[id].children| && Agreeing(vs, ms)
    requires var op := ir[id].op; op.And? || op.Or? || op.Not? || op.Implies? || op.Xor?
    ensures Matches(t, i.world, ir[id].sort, Step(ir, t, id, vs), Denote(ir, i, id, ms))
  {
    hide Parity, CountTrue, Junction, SameMeaning, DenoteContents;
    match ir[id].op
    case And => JunctionSound(vs, ms, true, false);
    case Or => JunctionSound(vs, ms, false, false);
    case Xor =>
      ParityAgrees(BoolsOf(vs), Bools(ms));
      ParityIsOdd(Bools(ms));
    case _ =>
  }

  lemma {:induction false} SelectSound(ir: Dag, t: Tables, i: Interpretation, id: nat, vs: seq<Value>, ms: seq<Meaning>)
    requires Ordered(ir) && id < |ir| && ir[id].op.Select? && WellSortedAt(ir, id) && ChildrenSound(ir, t, i.world, id, vs, ms)
    ensures Matches(t, i.world, ir[id].sort, Step(ir, t, id, vs), Denote(ir, i, id, ms))
  {
    hide Matches, HasSort, SameMeaning, DenoteContents;
    if |vs| == 2 && vs[0].Array? && AsToken(t, vs[1]).Some? {
      var sorts := ChildSorts(ir, id);
      assert HasSort(t, i.world.universe, sorts[1], vs[1]) && HasSort(t, i.world.universe, sorts[0], vs[0]);
      assert Matches(t, i.world, sorts[1], vs[1], ms[1]) && Matches(t, i.world, sorts[0], vs[0], ms[0]);
      ReadSound(t, i.world, sorts[0], vs[0], ms[0], vs[1], ms[1]);
    } else {
      UnknownMatches(t, i.world, ir[id].sort, Denote(ir, i, id, ms));
    }
  }

  /** Reading: the element, or the array behind it. */
  lemma {:induction false} ReadSound(t: Tables, w: World, sort: Sort, v: Value, m: Meaning, index: Value, at: Meaning)
    requires sort.ArraySort? && v.Array? && index.Known? && HasSort(t, w.universe, sort.index, index)
    requires Matches(t, w, sort, v, m) && Matches(t, w, sort.index, index, at)
    ensures m.Mapping? && at.Plain? && Matches(t, w, sort.element, Element(t, sort.element, At(v.contents, index.scalar)), m.f(at.scalar))
  {
    hide DenoteToken, DenoteContents, SameMeaning, InDomain, At;
    var n := DenoteContents(t, w, sort, v.contents);
    DenotesElements(t, w, sort, v.contents);
    OnlyMappings(w, sort, m, n);
    SameMappings(w, sort, m, n);
    assert SameMeaning(w, sort.element, m.f(at.scalar), n.f(at.scalar));
    TokenMatches(t, w, sort.element, At(v.contents, index.scalar), m.f(at.scalar));
  }

  lemma {:induction false} OnlyMappings(w: World, sort: Sort, m: Meaning, n: Meaning)
    requires n.Mapping? && SameMeaning(w, sort, m, n)
    ensures m.Mapping?
  {
  }

  lemma {:induction false} TokenMatches(t: Tables, w: World, sort: Sort, token: Scalar, m: Meaning)
    requires SameMeaning(w, sort, m, DenoteToken(t, w, sort, token))
    ensures Matches(t, w, sort, Element(t, sort, token), m)
  {
    hide DenoteContents, DenoteRecord, SameMeaning, Contents;
    if !sort.ArraySort? {
      ScalarsOnly(w, sort, m, Plain(token));
    } else if RecordOf(t, token).Some? {
      var r := RecordOf(t, token).value;
      RecordMeans(t, w, sort, r);
      SameTransitive(w, sort, m, DenoteRecord(t, w, sort, r), DenoteContents(t, w, sort, Contents(r)));
    }
  }

  lemma {:induction false} ScalarsOnly(w: World, sort: Sort, m: Meaning, n: Meaning)
    requires !sort.ArraySort? && SameMeaning(w, sort, m, n)
    ensures m == n
  {
  }

  /** Writing: the new element at the index, the old ones elsewhere. */
  lemma {:induction false} WriteSound(t: Tables, w: World, sort: Sort, a: ArrayVal, m: Meaning, x: Scalar, token: Scalar, n: Meaning)
    requires sort.ArraySort? && m.Mapping? && SameMeaning(w, sort, m, DenoteContents(t, w, sort, a))
    requires !sort.element.ArraySort? && n.Mapping? && forall s: Scalar :: n.f(s) == if s == x then Plain(token) else m.f(s)
    ensures SameMeaning(w, sort, n, DenoteContents(t, w, sort, a.(overrides := a.overrides[x := token])))
  {
    hide DenoteContents, SameMeaning, InDomain;
    var b := a.(overrides := a.overrides[x := token]);
    var f, g := DenoteContents(t, w, sort, a), DenoteContents(t, w, sort, b);
    DenotesElements(t, w, sort, a);
    DenotesElements(t, w, sort, b);
    SameMappings(w, sort, m, f);
    SameMappings(w, sort, n, g);
    forall s: Scalar | InDomain(w.universe, sort.index, s) ensures SameMeaning(w, sort.element, n.f(s), g.f(s)) {
      if s == x {
        assert g.f(s) == Plain(token);
        SameReflexive(w, sort.element, Plain(token));
      } else {
        assert At(b, s) == At(a, s);
      }
    }
  }

  lemma {:induction false} StoreSound(ir: Dag, t: Tables, i: Interpretation, id: nat, vs: seq<Value>, ms: seq<Meaning>)
    requires Ordered(ir) && id < |ir| && ir[id].op.Store? && WellSortedAt(ir, id) && ChildrenSound(ir, t, i.world, id, vs, ms)
    ensures Matches(t, i.world, ir[id].sort, Step(ir, t, id, vs), Denote(ir, i, id, ms))
  {
    hide HasSort, SameMeaning, DenoteContents;
    if |vs| == 3 && vs[0].Array? && AsToken(t, vs[1]).Some? && AsToken(t, vs[2]).Some? {
      var sorts, sort := ChildSorts(ir, id), ir[id].sort;
      assert HasSort(t, i.world.universe, sorts[2], vs[2]);
      assert Matches(t, i.world, sorts[0], vs[0], ms[0]) && Matches(t, i.world, sorts[1], vs[1], ms[1]) && Matches(t, i.world, sorts[2], vs[2], ms[2]);
      ScalarSorted(t, i.world.universe, sorts[2], vs[2]);
      DenotesElements(t, i.world, sort, vs[0].contents);
      OnlyMappings(i.world, sort, ms[0], DenoteContents(t, i.world, sort, vs[0].contents));
      WriteSound(t, i.world, sort, vs[0].contents, ms[0], vs[1].scalar, vs[2].scalar, Denote(ir, i, id, ms));
    }
  }

  lemma {:induction false} ScalarSorted(t: Tables, u: Universe, sort: Sort, v: Value)
    requires v.Known? && HasSort(t, u, sort, v)
    ensures !sort.ArraySort?
  {
  }

  lemma {:induction false} ConstArraySound(ir: Dag, t: Tables, i: Interpretation, id: nat, vs: seq<Value>, ms: seq<Meaning>)
    requires Ordered(ir) && id < |ir| && ir[id].op.ConstArray? && WellSortedAt(ir, id) && ChildrenSound(ir, t, i.world, id, vs, ms)
    ensures Matches(t, i.world, ir[id].sort, Step(ir, t, id, vs), Denote(ir, i, id, ms))
  {
    hide HasSort, SameMeaning, DenoteContents, InDomain;
    if |vs| == 1 && AsToken(t, vs[0]).Some? {
      var sorts, sort, w := ChildSorts(ir, id), ir[id].sort, i.world;
      assert HasSort(t, w.universe, sorts[0], vs[0]) && Matches(t, w, sorts[0], vs[0], ms[0]);
      ScalarSorted(t, w.universe, sorts[0], vs[0]);
      var a := ArrayVal(vs[0].scalar, map[]);
      var m, n := Denote(ir, i, id, ms), DenoteContents(t, w, sort, a);
      DenotesElements(t, w, sort, a);
      SameMappings(w, sort, m, n);
      forall s: Scalar ensures SameMeaning(w, sort.element, m.f(s), n.f(s)) {
        assert n.f(s) == ms[0];
        SameReflexive(w, sort.element, ms[0]);
      }
    }
  }

  /** Different array keys are different arrays, so that a row set aside does not apply. */
  lemma {:induction false} KeyFitSound(t: Tables, w: World, sort: Sort, v: Value, m: Meaning, key: Cell, argSort: string)
    requires HasSort(t, w.universe, sort, v) && Matches(t, w, sort, v, m) && ScalarIndices(sort)
    requires sort.ArraySort? ==> Separate(t, w, sort.element) && Belongs(t, w.universe, sort, Opaque(key.text))
    ensures KeyFit(t, sort, v, key, argSort) == Fits ==> KeyMatches(t, w, sort, m, key)
    ensures KeyFit(t, sort, v, key, argSort) == Differs ==> !KeyMatches(t, w, sort, m, key)
  {
    hide SameMeaning, DenoteContents, DenoteRecord, EqualArrays, ContentsIn, RecordIn, InDomain, Separate, ContentsDiffer, Contents;
    if v.Array? && RecordOf(t, Opaque(key.text)).Some? {
      var b := Contents(RecordOf(t, Opaque(key.text)).value);
      HandleSorted(t, w.universe, sort, Opaque(key.text));
      EqualArraysReal(t, w, sort, v.contents, b);
      if EqualArrays(v.contents, b, sort.index) == Some(false) {
        SeparateReal(t, w, sort, v.contents, b);
      }
      var r := RecordOf(t, Opaque(key.text)).value;
      RecordMeans(t, w, sort, r);
      SameBoth(w, sort, m, DenoteContents(t, w, sort, v.contents), DenoteRecord(t, w, sort, r), DenoteContents(t, w, sort, b));
    } else if v.Known? {
      ScalarSorted(t, w.universe, sort, v);
    }
  }

  ghost predicate ArgumentSound(t: Tables, w: World, sort: Sort, v: Value, m: Meaning) {
    && HasSort(t, w.universe, sort, v) && Matches(t, w, sort, v, m) && ScalarIndices(sort)
    && (sort.ArraySort? ==> Separate(t, w, sort.element))
  }

  ghost predicate ArgumentsSound(t: Tables, w: World, sorts: seq<Sort>, vs: seq<Value>, ms: seq<Meaning>) {
    |sorts| == |vs| == |ms| && forall k: nat | k < |vs| :: ArgumentSound(t, w, sorts[k], vs[k], ms[k])
  }

  ghost predicate KeysBelong(t: Tables, u: Universe, sorts: seq<Sort>, keys: seq<Cell>) {
    |sorts| == |keys| && forall k: nat | k < |keys| && sorts[k].ArraySort? :: Belongs(t, u, sorts[k], Opaque(keys[k].text))
  }

  lemma {:induction false} RowFitSound(t: Tables, w: World, sorts: seq<Sort>, vs: seq<Value>, ms: seq<Meaning>, keys: seq<Cell>, argSorts: seq<string>)
    requires ArgumentsSound(t, w, sorts, vs, ms) && |argSorts| == |vs| && KeysBelong(t, w.universe, sorts, keys)
    ensures RowFit(t, sorts, vs, keys, argSorts) == Fits ==> forall k: nat | k < |ms| :: KeyMatches(t, w, sorts[k], ms[k], keys[k])
    ensures RowFit(t, sorts, vs, keys, argSorts) == Differs ==> exists k: nat :: k < |ms| && !KeyMatches(t, w, sorts[k], ms[k], keys[k])
  {
    hide ArgumentSound, Belongs, KeyFit, KeyMatches;
    if vs != [] {
      var m := |vs| - 1;
      RowFitSound(t, w, sorts[..m], vs[..m], ms[..m], keys[..m], argSorts[..m]);
      assert ArgumentSound(t, w, sorts[m], vs[m], ms[m]);
      KeyFitThere(t, w, sorts[m], vs[m], ms[m], keys[m], argSorts[m]);
      var front := RowFit(t, sorts[..m], vs[..m], keys[..m], argSorts[..m]);
      if RowFit(t, sorts, vs, keys, argSorts) == Differs && front == Differs {
        var k: nat :| k < m && !KeyMatches(t, w, sorts[..m][k], ms[..m][k], keys[..m][k]);
        assert !KeyMatches(t, w, sorts[k], ms[k], keys[k]);
      } else if RowFit(t, sorts, vs, keys, argSorts) == Fits {
        assert forall k: nat | k < m :: KeyMatches(t, w, sorts[..m][k], ms[..m][k], keys[..m][k]);
      }
    }
  }

  lemma {:induction false} KeyFitThere(t: Tables, w: World, sort: Sort, v: Value, m: Meaning, key: Cell, argSort: string)
    requires ArgumentSound(t, w, sort, v, m) && (sort.ArraySort? ==> Belongs(t, w.universe, sort, Opaque(key.text)))
    ensures KeyFit(t, sort, v, key, argSort) == Fits ==> KeyMatches(t, w, sort, m, key)
    ensures KeyFit(t, sort, v, key, argSort) == Differs ==> !KeyMatches(t, w, sort, m, key)
  {
    hide KeyFit, KeyMatches, HasSort, Matches, ScalarIndices, Separate, Belongs;
    KeyFitSound(t, w, sort, v, m, key, argSort);
  }

  /** The rows scanned so far: none matches, or one does and all that match agree with it. */
  lemma {:induction false} ScanSound(t: Tables, w: World, f: FunctionTable, sorts: seq<Sort>, vs: seq<Value>, ms: seq<Meaning>, n: nat)
    requires ArgumentsSound(t, w, sorts, vs, ms) && n <= |f.rows| && |vs| == |f.argSorts| && Scan(t, f, sorts, vs, n).Some?
    requires forall r | r in f.rows && |r.args| == |sorts| :: KeysBelong(t, w.universe, sorts, r.args)
    ensures Scan(t, f, sorts, vs, n).value.None? ==> forall r | r in f.rows[..n] :: !RowMatches(t, w, sorts, ms, r)
    ensures Scan(t, f, sorts, vs, n).value.Some? ==>
      var cell := Scan(t, f, sorts, vs, n).value.value;
      (exists r :: r in f.rows[..n] && r.value == cell && RowMatches(t, w, sorts, ms, r)) &&
      forall q | q in f.rows[..n] && RowMatches(t, w, sorts, ms, q) :: q.value.text == cell.text
  {
    hide ArgumentSound, RowFit, KeyMatches, KeysBelong;
    if n > 0 {
      var row := f.rows[n - 1];
      ScanSound(t, w, f, sorts, vs, ms, n - 1);
      assert f.rows[..n] == f.rows[..n - 1] + [row] && row in f.rows;
      RowFitSound(t, w, sorts, vs, ms, row.args, f.argSorts);
      if RowFit(t, sorts, vs, row.args, f.argSorts) == Fits {
        assert RowMatches(t, w, sorts, ms, row) && row in f.rows[..n];
      } else {
        assert !RowMatches(t, w, sorts, ms, row);
      }
    }
  }

  /** A definite application is what every extension gives. */
  lemma {:induction false} ApplySound(t: Tables, i: Interpretation, symbol: string, f: FunctionTable, sorts: seq<Sort>, sort: Sort, vs: seq<Value>, ms: seq<Meaning>)
    requires ArgumentsSound(t, i.world, sorts, vs, ms) && FunctionIn(t, i.world.universe, f, sorts, sort)
    requires ExtendsFunction(t, i, symbol, f, sorts, sort)
    ensures Matches(t, i.world, sort, ApplyTable(t, f, sorts, sort, vs), i.apply(symbol, ms))
  {
    hide ArgumentSound, RowMatches, ResultOf, Matches, HasSort, Scan, Belongs, CellIn, CellMeans, Spell;
    UnknownMatches(t, i.world, sort, i.apply(symbol, ms));
    if |f.argSorts| == |vs| && Scan(t, f, sorts, vs, |f.rows|).Some? {
      ScanSound(t, i.world, f, sorts, vs, ms, |f.rows|);
      assert f.rows[..|f.rows|] == f.rows;
      var found := Scan(t, f, sorts, vs, |f.rows|).value;
      var cell := if found.Some? then found.value else f.default;
      assert Gives(t, i.world, f, sorts, ms, cell);
      CellSorted(t, i.world, f, sorts, sort, ms, cell);
      ResultMatches(t, i.world, f, sort, cell, i.apply(symbol, ms));
    }
  }

  /** The two operands are arrays found different only if the tables hold a difference. */
  ghost predicate RealPair(ir: Dag, t: Tables, w: World, id: nat, k: nat, l: nat)
    requires Ordered(ir) && id < |ir| && k < |ir[id].children| && l < |ir[id].children|
  {
    RealDifference(t, w, ir[ir[id].children[k]].sort, Evaluate(ir, t, ir[id].children[k]), Evaluate(ir, t, ir[id].children[l]))
  }

  ghost predicate RealDifference(t: Tables, w: World, sort: Sort, a: Value, b: Value) {
    sort.ArraySort? && a.Array? && b.Array? && EqualArrays(a.contents, b.contents, sort.index) == Some(false) ==>
      ContentsDiffer(t, w, sort, a.contents, b.contents)
  }

  /** The comparison made at the node can be relied on. */
  ghost predicate TrustedAt(ir: Dag, t: Tables, w: World, id: nat)
    requires Ordered(ir) && id < |ir|
  {
    match ir[id].op
    case Eq => |ir[id].children| == 2 ==> RealPair(ir, t, w, id, 0, 1)
    case Distinct => Evaluate(ir, t, id) == Known(Truth(true)) ==> forall k: nat, l: nat | k < l < |ir[id].children| :: RealPair(ir, t, w, id, k, l)
    case _ => true
  }

  /** So can all comparisons below a term. */
  ghost predicate Trusted(ir: Dag, t: Tables, w: World, id: nat)
    requires Ordered(ir) && id < |ir|
    decreases id
  {
    TrustedAt(ir, t, w, id) && forall k: nat | k < |ir[id].children| :: Trusted(ir, t, w, ir[id].children[k])
  }

  lemma {:induction false} CompareExact(t: Tables, w: World, sort: Sort, a: Value, b: Value, m: Meaning, n: Meaning)
    requires HasSort(t, w.universe, sort, a) && HasSort(t, w.universe, sort, b) && ScalarIndices(sort)
    requires Matches(t, w, sort, a, m) && Matches(t, w, sort, b, n)
    ensures Compare(t, sort, a, b) == Some(true) ==> SameMeaning(w, sort, m, n)
    ensures Compare(t, sort, a, b) == Some(false) ==> (!SameMeaning(w, sort, m, n) <==> RealDifference(t, w, sort, a, b))
  {
    hide DenoteContents, EqualArrays, ContentsIn, InDomain, ContentsDiffer;
    if a.Array? && b.Array? {
      hide SameMeaning;
      EqualArraysReal(t, w, sort, a.contents, b.contents);
      var x, y := DenoteContents(t, w, sort, a.contents), DenoteContents(t, w, sort, b.contents);
      SameAlong(w, sort, m, x, n);
      SameAlong(w, sort, n, y, x);
      SameEither(w, sort, n, x);
      SameEither(w, sort, y, x);
    } else if a.Known? {
      ScalarSorted(t, w.universe, sort, a);
    }
  }
}
