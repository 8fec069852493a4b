/** Lists without repetitions that keep the order of first occurrence. */
module FirstOccurrences {
  function Gather<T(==)>(seen: seq<T>, s: seq<T>): seq<T>
    decreases |s|
  {
    if s == [] then seen else Gather(if s[0] in seen then seen else seen + [s[0]], s[1..])
  }

  lemma {:induction false} GatherConcat<T>(seen: seq<T>, s: seq<T>, t: seq<T>)
    ensures Gather(seen, s + t) == Gather(Gather(seen, s), t)
    decreases |s|
  {
    if s == [] {
      assert s + t == t;
    } else {
      assert (s + t)[1..] == s[1..] + t;
      GatherConcat(if s[0] in seen then seen else seen + [s[0]], s[1..], t);
    }
  }

  lemma {:induction false} GatherKnown<T>(seen: seq<T>, s: seq<T>)
    requires forall x | x in s :: x in seen
    ensures Gather(seen, s) == seen
    decreases |s|
  {
    if s != [] {
      GatherKnown(seen, s[1..]);
    }
  }

  /** Nothing is lost, added or repeated. */
  lemma {:induction false} GatherExact<T>(seen: seq<T>, s: seq<T>)
    requires forall i, j | 0 <= i < j < |seen| :: seen[i] != seen[j]
    ensures forall x :: x in Gather(seen, s) <==> x in seen || x in s
    ensures forall i, j | 0 <= i < j < |Gather(seen, s)| :: Gather(seen, s)[i] != Gather(seen, s)[j]
    decreases |s|
  {
    if s != [] {
      var next := if s[0] in seen then seen else seen + [s[0]];
      GatherExact(next, s[1..]);
      assert s == [s[0]] + s[1..];
    }
  }
}
