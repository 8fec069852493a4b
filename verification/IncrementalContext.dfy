/** Level-tagged source lists with prefix revisions, and a lazily built first-match index. */
module IncrementalContext {
  import opened Basics

  datatype Withdrawal = Unchanged | Suffix | Filtered
  datatype BacktrackResult = BacktrackResult(kind: Withdrawal, firstChanged: nat, removed: nat)
  datatype Snapshot<Entry> = Snapshot(entries: seq<Entry>, ordered: bool)

  predicate Sorted<Entry>(level: Entry -> int, entries: seq<Entry>) {
    forall i, j | 0 <= i < j < |entries| :: level(entries[i]) <= level(entries[j])
  }

  /** The entries at or below a level, in order. */
  function Keep<Entry>(level: Entry -> int, entries: seq<Entry>, target: int): seq<Entry> {
    if entries == [] then [] else
    var rest := Keep(level, entries[..|entries| - 1], target);
    var last := entries[|entries| - 1];
    if level(last) <= target then rest + [last] else rest
  }

  function Reversed<Entry>(s: seq<Entry>): seq<Entry> {
    seq(|s|, i requires 0 <= i < |s| => s[|s| - 1 - i])
  }

  lemma {:induction false} KeepAll<Entry>(level: Entry -> int, entries: seq<Entry>, target: int)
    requires forall i | 0 <= i < |entries| :: level(entries[i]) <= target
    ensures Keep(level, entries, target) == entries
  {
    if entries != [] {
      KeepAll(level, entries[..|entries| - 1], target);
    }
  }

  lemma {:induction false} KeepPrefix<Entry>(level: Entry -> int, entries: seq<Entry>, target: int, n: nat)
    requires n <= |entries|
    requires forall i | 0 <= i < n :: level(entries[i]) <= target
    requires forall i | n <= i < |entries| :: level(entries[i]) > target
    ensures Keep(level, entries, target) == entries[..n]
  {
    if n == |entries| {
      KeepAll(level, entries, target);
      assert entries[..n] == entries;
    } else {
      var shorter := entries[..|entries| - 1];
      KeepPrefix(level, shorter, target, n);
      assert shorter[..n] == entries[..n];
    }
  }

  lemma {:induction false} KeepSplit<Entry>(level: Entry -> int, a: seq<Entry>, b: seq<Entry>, target: int)
    ensures Keep(level, a + b, target) == Keep(level, a, target) + Keep(level, b, target)
  {
    if b == [] {
      assert a + b == a;
    } else {
      assert (a + b)[..|a + b| - 1] == a + b[..|b| - 1];
      KeepSplit(level, a, b[..|b| - 1], target);
    }
  }

  /** The entries a client saw under an unchanged revision are still a prefix. */
  datatype State<Entry> = State(entries: seq<Entry>, revision: nat)

  ghost predicate Step<Entry>(s: State<Entry>, t: State<Entry>) {
    && s.revision <= t.revision <= UINT64_MAX
    && (s.revision == t.revision < UINT64_MAX ==> s.entries <= t.entries)
  }

  /** Over any run, equal usable revisions mean the later entries extend the earlier ones. */
  lemma {:induction false} UnchangedRevisionKeepsPrefix<Entry>(run: seq<State<Entry>>, i: nat, j: nat)
    requires i <= j < |run| && forall k: nat | k + 1 < |run| :: Step(run[k], run[k + 1])
    ensures run[i].revision <= run[j].revision
    ensures run[i].revision == run[j].revision < UINT64_MAX ==> run[i].entries <= run[j].entries
    decreases j
  {
    if i < j {
      UnchangedRevisionKeepsPrefix(run, i, j - 1);
      assert Step(run[j - 1], run[j - 1 + 1]);
    }
  }

  /** Everything above the target is withdrawn.  Nothing when no entry is; the suffix from the
      first such entry, undone backwards, when all from there on are; otherwise by filtering. */
  ghost predicate Withdrawn<Entry>(level: Entry -> int, before: seq<Entry>, after: seq<Entry>, target: int, result: BacktrackResult, undone: seq<Entry>) {
    var first := result.firstChanged;
    && after == Keep(level, before, target) && |after| <= |before| && result.removed == |before| - |after|
    && first <= |before| && (forall i | 0 <= i < first :: level(before[i]) <= target)
    && (first < |before| ==> level(before[first]) > target)
    && (result.kind == Unchanged <==> first == |before|)
    && (result.kind == Suffix <==> first < |before| && forall i | first <= i < |before| :: level(before[i]) > target)
    && undone == if result.kind == Suffix then Reversed(before[first..]) else []
  }

  /** What is left below the first withdrawn entry is untouched, and a suffix leaves just that. */
  lemma {:induction false} WithdrawnKeepsPrefix<Entry>(level: Entry -> int, before: seq<Entry>, after: seq<Entry>, target: int, result: BacktrackResult, undone: seq<Entry>)
    requires Withdrawn(level, before, after, target, result, undone)
    ensures result.firstChanged <= |after| && after[..result.firstChanged] == before[..result.firstChanged]
    ensures result.kind == Unchanged ==> after == before
    ensures result.kind == Suffix ==> after == before[..result.firstChanged]
  {
    var first := result.firstChanged;
    assert before == before[..first] + before[first..];
    KeepSplit(level, before[..first], before[first..], target);
    KeepAll(level, before[..first], target);
    if result.kind != Filtered {
      KeepPrefix(level, before, target, first);
    }
  }

  class Context<Entry> {
    const level: Entry -> int
    var entries: seq<Entry>
    var ordered: bool
    var revision: nat

    constructor (level: Entry -> int)
      ensures Valid() && this.level == level && entries == [] && revision == 0
    {
      this.level, entries, ordered, revision := level, [], true, 0;
    }

    ghost predicate Valid()
      reads this
    {
      (ordered ==> Sorted(level, entries)) && revision <= UINT64_MAX
    }

    ghost function Now(): State<Entry>
      reads this
    {
      State(entries, revision)
    }

    /** No revision once it has saturated. */
    function RetainedPrefixRevision(): (r: Option<nat>)
      reads this
      ensures r.Some? <==> revision != UINT64_MAX
    {
      if revision == UINT64_MAX then None else Some(revision)
    }

    method InvalidatePrefix()
      requires Valid()
      modifies this`revision
      ensures Valid() && revision <= UINT64_MAX
      ensures revision > old(revision) || revision == UINT64_MAX
    {
      if revision != UINT64_MAX {
        revision := revision + 1;
      }
    }

    method Append(entry: Entry)
      requires Valid()
      modifies this
      ensures Valid() && Step(old(Now()), Now())
      ensures entries == old(entries) + [entry] && revision == old(revision)
    {
      var stays := ordered && (entries == [] || level(entries[|entries| - 1]) <= level(entry));
      ordered := false;
      entries := entries + [entry];
      ordered := stays;
    }

    method Replace(index: nat, entry: Entry) returns (ok: bool)
      requires Valid()
      modifies this
      ensures Valid() && Step(old(Now()), Now())
      ensures ok == (index < |old(entries)|)
      ensures ok ==> entries == old(entries)[index := entry]
      ensures ok ==> revision > old(revision) || revision == UINT64_MAX
      ensures !ok ==> Now() == old(Now()) && ordered == old(ordered)
    {
      if index >= |entries| {
        return false;
      }
      InvalidatePrefix();
      var stays := ordered
        && (index == 0 || level(entries[index - 1]) <= level(entry))
        && (index + 1 == |entries| || level(entry) <= level(entries[index + 1]));
      ordered := false;
      entries := entries[index := entry];
      ordered := stays;
      return true;
    }

    method Clear()
      requires Valid()
      modifies this
      ensures Valid() && Step(old(Now()), Now()) && entries == []
      ensures revision > old(revision) || revision == UINT64_MAX
    {
      InvalidatePrefix();
      entries, ordered := [], true;
    }

    method Truncate(count: nat) returns (ok: bool)
      requires Valid()
      modifies this
      ensures Valid() && Step(old(Now()), Now())
      ensures ok == (count <= |old(entries)|)
      ensures entries == if ok then old(entries)[..count] else old(entries)
      ensures !ok || count == |old(entries)| ==> revision == old(revision)
      ensures ok && count < |old(entries)| ==> revision > old(revision) || revision == UINT64_MAX
    {
      if count > |entries| {
        return false;
      }
      if count != |entries| {
        InvalidatePrefix();
      }
      while |entries| > count
        invariant count <= |entries| && entries == old(entries)[..|entries|]
        invariant ordered == old(ordered) && Valid() && revision <= UINT64_MAX
        invariant revision > old(revision) || revision == UINT64_MAX || |entries| == count == |old(entries)|
        invariant revision >= old(revision) && (count == |old(entries)| ==> revision == old(revision))
      {
        entries := entries[..|entries| - 1];
      }
      return true;
    }

    method TakeSnapshot() returns (saved: Snapshot<Entry>)
      requires Valid()
      ensures saved == Snapshot(entries, ordered)
    {
      saved := Snapshot(entries, ordered);
    }

    /** Restore a snapshot; taking one earlier never makes a later revision reusable. */
    method Restore(saved: Snapshot<Entry>)
      requires Valid() && (saved.ordered ==> Sorted(level, saved.entries))
      modifies this
      ensures Valid() && Step(old(Now()), Now())
      ensures entries == saved.entries && ordered == saved.ordered
      ensures revision > old(revision) || revision == UINT64_MAX
    {
      InvalidatePrefix();
      entries, ordered := saved.entries, saved.ordered;
    }

    /** Assignment from another context. */
    method Assign(other: Context<Entry>)
      requires Valid() && other.Valid() && other.level == level
      modifies this
      ensures Valid() && Step(old(Now()), Now()) && entries == old(other.entries)
    {
      if other != this {
        InvalidatePrefix();
        entries, ordered := other.entries, other.ordered;
      }
    }

    /** The first entry above the target: binary search when ordered, linear otherwise. */
    method FirstWithdrawn(target: int) returns (first: nat)
      requires Valid()
      ensures first <= |entries|
      ensures forall i | 0 <= i < first :: level(entries[i]) <= target
      ensures first < |entries| ==> level(entries[first]) > target
    {
      if ordered {
        var lo, hi := 0, |entries|;
        while lo < hi
          invariant lo <= hi <= |entries|
          invariant forall i | 0 <= i < lo :: level(entries[i]) <= target
          invariant hi < |entries| ==> level(entries[hi]) > target
        {
          var mid := (lo + hi) / 2;
          if level(entries[mid]) <= target {
            lo := mid + 1;
          } else {
            hi := mid;
          }
        }
        return lo;
      }
      first := 0;
      while first < |entries| && level(entries[first]) <= target
        invariant first <= |entries|
        invariant forall i | 0 <= i < first :: level(entries[i]) <= target
      {
        first := first + 1;
      }
    }

    /** Pop down to `first`, handing each entry to the undo callback before it goes. */
    method PopSuffix(first: nat) returns (undone: seq<Entry>)
      requires Valid() && first <= |entries|
      modifies this`entries
      ensures Valid() && entries == old(entries)[..first]
      ensures undone == Reversed(old(entries)[first..])
    {
      undone := [];
      assert entries == entries[..|entries|];
      while |entries| > first
        invariant first <= |entries| <= |old(entries)| && entries == old(entries)[..|entries|] && Valid()
        invariant undone == Reversed(old(entries)[|entries|..])
      {
        var n := |entries| - 1;
        ReversedGrows(old(entries), n);
        undone := undone + [entries[n]];
        entries := entries[..n];
      }
    }

    lemma {:induction false} ReversedGrows(s: seq<Entry>, n: nat)
      requires n < |s|
      ensures Reversed(s[n..]) == Reversed(s[n + 1..]) + [s[n]]
    {
      assert s[n..] == [s[n]] + s[n + 1..];
    }

    /** Withdraw every entry above the target.  `undone` lists the entries passed to the
        undo callback, in call order. */
    method Backtrack(target: int) returns (result: BacktrackResult, undone: seq<Entry>)
      requires Valid()
      modifies this
      ensures Valid() && Step(old(Now()), Now())
      ensures Withdrawn(level, old(entries), entries, target, result, undone)
      ensures result.kind == Unchanged ==> revision == old(revision)
      ensures result.kind != Unchanged ==> revision > old(revision) || revision == UINT64_MAX
    {
      var first := FirstWithdrawn(target);
      undone := [];
      if first == |entries| {
        KeepAll(level, entries, target);
        return BacktrackResult(Unchanged, first, 0), [];
      }
      InvalidatePrefix();
      var previous := |entries|;
      if ordered || forall i | first <= i < |entries| :: level(entries[i]) > target {
        KeepPrefix(level, entries, target, first);
        undone := PopSuffix(first);
        if !ordered {
          ordered := Sorted(level, entries);
        }
        return BacktrackResult(Suffix, first, previous - |entries|), undone;
      }
      FilteredNotPrefix(entries, target, first);
      ordered := false;
      entries := Keep(level, entries, target);
      ordered := Sorted(level, entries);
      return BacktrackResult(Filtered, first, previous - |entries|), [];
    }

    /** Filtering with a survivor behind a withdrawn entry keeps the prefix but is no prefix itself. */
    lemma {:induction false} FilteredNotPrefix(s: seq<Entry>, target: int, first: nat)
      requires first < |s| && level(s[first]) > target
      requires forall i | 0 <= i < first :: level(s[i]) <= target
      requires exists i :: first <= i < |s| && level(s[i]) <= target
      ensures first <= |Keep(level, s, target)| <= |s|
      ensures Keep(level, s, target)[..first] == s[..first]
      ensures !(Keep(level, s, target) <= s)
    {
      var tail := Keep(level, s[first..], target);
      assert s == s[..first] + s[first..];
      KeepSplit(level, s[..first], s[first..], target);
      KeepAll(level, s[..first], target);
      var i :| first <= i < |s| && level(s[i]) <= target;
      KeepMember(s[first..], target, i - first);
      KeepLow(s[first..], target);
      KeepShrinks(s, target);
      assert Keep(level, s, target)[first] == tail[0];
    }

    lemma {:induction false} KeepMember(s: seq<Entry>, target: int, i: nat)
      requires i < |s| && level(s[i]) <= target
      ensures |Keep(level, s, target)| > 0
    {
      if i < |s| - 1 {
        KeepMember(s[..|s| - 1], target, i);
      }
    }

    lemma {:induction false} KeepLow(s: seq<Entry>, target: int)
      ensures forall k | 0 <= k < |Keep(level, s, target)| :: level(Keep(level, s, target)[k]) <= target
    {
      if s != [] {
        KeepLow(s[..|s| - 1], target);
      }
    }

    lemma {:induction false} KeepShrinks(s: seq<Entry>, target: int)
      ensures |Keep(level, s, target)| <= |s|
    {
      if s != [] {
        KeepShrinks(s[..|s| - 1], target);
      }
    }
  }

  /** Position of the first entry with a key. */
  function FirstMatch<Entry, Key(==)>(keyOf: Entry -> Key, entries: seq<Entry>, key: Key): Option<nat> {
    if entries == [] then None else
    var earlier := FirstMatch(keyOf, entries[..|entries| - 1], key);
    if earlier.Some? then earlier
    else if keyOf(entries[|entries| - 1]) == key then Some(|entries| - 1) else None
  }

  lemma {:induction false} FirstMatchExact<Entry, Key>(keyOf: Entry -> Key, entries: seq<Entry>, key: Key)
    ensures match FirstMatch(keyOf, entries, key)
            case None => forall i | 0 <= i < |entries| :: keyOf(entries[i]) != key
            case Some(p) => p < |entries| && keyOf(entries[p]) == key && forall i | 0 <= i < p :: keyOf(entries[i]) != key
  {
    if entries != [] {
      FirstMatchExact(keyOf, entries[..|entries| - 1], key);
    }
  }

  /** Only the keys decide the first match. */
  lemma {:induction false} FirstMatchSameKeys<Entry, Key>(keyOf: Entry -> Key, a: seq<Entry>, b: seq<Entry>, key: Key)
    requires |a| == |b| && forall i | 0 <= i < |a| :: keyOf(a[i]) == keyOf(b[i])
    ensures FirstMatch(keyOf, a, key) == FirstMatch(keyOf, b, key)
  {
    if a != [] {
      FirstMatchSameKeys(keyOf, a[..|a| - 1], b[..|b| - 1], key);
    }
  }

  class IndexedContext<Entry, Key(!new, ==)> {
    const keyOf: Entry -> Key
    const sources: Context<Entry>
    var index: map<Key, nat>
    var indexed: bool

    constructor (level: Entry -> int, keyOf: Entry -> Key)
      ensures Valid() && fresh(sources) && sources.entries == [] && this.keyOf == keyOf && sources.level == level
    {
      this.keyOf := keyOf;
      sources := new Context<Entry>(level);
      index, indexed := map[], false;
    }

    /** Once built, the index is the first-match map of the current entries. */
    ghost predicate Indexes(entries: seq<Entry>)
      reads this
    {
      forall key: Key {:trigger FirstMatch(keyOf, entries, key)} :: Lookup(key) == FirstMatch(keyOf, entries, key)
    }

    function Lookup(key: Key): Option<nat>
      reads this
    {
      if key in index then Some(index[key]) else None
    }

    ghost predicate Valid()
      reads this, sources
    {
      sources.Valid() && (indexed ==> Indexes(sources.entries))
    }

    method EnsureIndex()
      requires Valid()
      modifies this
      ensures Valid() && indexed
    {
      if indexed {
        return;
      }
      index := map[];
      for i := 0 to |sources.entries|
        invariant Indexes(sources.entries[..i])
      {
        var entry := sources.entries[i];
        assert sources.entries[..i + 1][..i] == sources.entries[..i];
        Extend(sources.entries[..i], entry);
        if keyOf(entry) !in index {
          index := index[keyOf(entry) := i];
        }
        assert sources.entries[..i + 1] == sources.entries[..i] + [entry];
      }
      assert sources.entries[..|sources.entries|] == sources.entries;
      indexed := true;
    }

    lemma {:induction false} Extend(entries: seq<Entry>, entry: Entry)
      ensures forall key: Key :: FirstMatch(keyOf, entries + [entry], key) ==
                if FirstMatch(keyOf, entries, key).Some? then FirstMatch(keyOf, entries, key)
                else if keyOf(entry) == key then Some(|entries|) else None
    {
      assert (entries + [entry])[..|entries|] == entries;
    }

    /** First-match linear search, answered from the index. */
    method Find(key: Key) returns (position: Option<nat>)
      requires Valid()
      modifies this
      ensures Valid() && position == FirstMatch(keyOf, sources.entries, key)
    {
      EnsureIndex();
      position := Lookup(key);
    }

    method Append(entry: Entry)
      requires Valid()
      modifies this, sources
      ensures Valid() && sources.entries == old(sources.entries) + [entry] && sources.revision == old(sources.revision)
      ensures Step(old(sources.Now()), sources.Now())
    {
      if indexed {
        Extend(sources.entries, entry);
        assert FirstMatch(keyOf, sources.entries, keyOf(entry)) == Lookup(keyOf(entry));
        if keyOf(entry) !in index {
          index := index[keyOf(entry) := |sources.entries|];
        }
      }
      sources.Append(entry);
    }

    method Replace(position: nat, entry: Entry) returns (ok: bool)
      requires Valid()
      modifies this, sources
      ensures Valid() && ok == (position < |old(sources.entries)|)
      ensures ok ==> sources.revision > old(sources.revision) || sources.revision == UINT64_MAX
      ensures sources.entries == if ok then old(sources.entries)[position := entry] else old(sources.entries)
      ensures Step(old(sources.Now()), sources.Now())
    {
      if position >= |sources.entries| {
        return false;
      }
      if indexed && keyOf(sources.entries[position]) != keyOf(entry) {
        indexed := false;
      }
      ghost var before := sources.entries;
      ok := sources.Replace(position, entry);
      if indexed {
        forall key: Key ensures FirstMatch(keyOf, sources.entries, key) == FirstMatch(keyOf, before, key) {
          FirstMatchSameKeys(keyOf, sources.entries, before, key);
        }
      }
    }

    /** Drop the index entry of the last source when it is the one indexed. */
    method WithdrawIndex(ghost entries: seq<Entry>, entry: Entry, position: nat)
      requires |entries| == position && (indexed ==> Indexes(entries + [entry]))
      modifies this`index
      ensures indexed ==> Indexes(entries)
    {
      if !indexed {
        return;
      }
      Extend(entries, entry);
      var key := keyOf(entry);
      forall k: Key ensures FirstMatch(keyOf, entries, k).Some? ==> FirstMatch(keyOf, entries, k).value < |entries| {
        FirstMatchExact(keyOf, entries, k);
      }
      assert Lookup(key) == FirstMatch(keyOf, entries + [entry], key);
      if key in index && index[key] == position {
        index := index - {key};
      }
    }

    /** Withdraw the index entries of a popped suffix, last first. */
    method WithdrawSuffix(all: seq<Entry>, count: nat)
      requires count <= |all| && (indexed ==> Indexes(all))
      modifies this`index
      ensures indexed ==> Indexes(all[..count])
    {
      var i := |all|;
      assert all[..i] == all;
      while i > count
        invariant count <= i <= |all| && (indexed ==> Indexes(all[..i]))
      {
        assert all[..i] == all[..i - 1] + [all[i - 1]];
        WithdrawIndex(all[..i - 1], all[i - 1], i - 1);
        i := i - 1;
      }
    }

    method Truncate(count: nat) returns (ok: bool)
      requires Valid()
      modifies this, sources
      ensures Valid() && ok == (count <= |old(sources.entries)|)
      ensures !ok || count == |old(sources.entries)| ==> sources.revision == old(sources.revision)
      ensures ok && count < |old(sources.entries)| ==> sources.revision > old(sources.revision) || sources.revision == UINT64_MAX
      ensures sources.entries == if ok then old(sources.entries)[..count] else old(sources.entries)
      ensures Step(old(sources.Now()), sources.Now())
    {
      if count > |sources.entries| {
        return false;
      }
      WithdrawSuffix(sources.entries, count);
      ok := sources.Truncate(count);
    }

    method Clear()
      requires Valid()
      modifies this, sources
      ensures Valid() && sources.entries == [] && Step(old(sources.Now()), sources.Now())
      ensures sources.revision > old(sources.revision) || sources.revision == UINT64_MAX
    {
      sources.Clear();
      index, indexed := map[], false;
    }

    method Restore(saved: Snapshot<Entry>)
      requires Valid() && (saved.ordered ==> Sorted(sources.level, saved.entries))
      modifies this, sources
      ensures Valid() && sources.entries == saved.entries && Step(old(sources.Now()), sources.Now())
      ensures sources.revision > old(sources.revision) || sources.revision == UINT64_MAX
    {
      sources.Restore(saved);
      index, indexed := map[], false;
    }

    method Backtrack(target: int) returns (result: BacktrackResult, undone: seq<Entry>)
      requires Valid()
      modifies this, sources
      ensures Valid() && Step(old(sources.Now()), sources.Now())
      ensures Withdrawn(sources.level, old(sources.entries), sources.entries, target, result, undone)
      ensures result.kind == Unchanged ==> sources.revision == old(sources.revision)
      ensures result.kind != Unchanged ==> sources.revision > old(sources.revision) || sources.revision == UINT64_MAX
      ensures indexed == (old(indexed) && result.kind != Filtered)
    {
      var before := sources.entries;
      result, undone := sources.Backtrack(target);
      match result.kind
      case Unchanged => WithdrawnKeepsPrefix(sources.level, before, sources.entries, target, result, undone);
      case Suffix =>
        WithdrawnKeepsPrefix(sources.level, before, sources.entries, target, result, undone);
        WithdrawSuffix(before, result.firstChanged);
      case Filtered => indexed := false;
    }
  }
}
