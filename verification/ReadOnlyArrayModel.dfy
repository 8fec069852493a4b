/** Array tables rebuilt from eliminated reads. */
module ReadOnlyArrayModel {
  import opened Basics
  import opened Terms
  import opened ReadOnlyArrayTables
  import opened EliminatedReads
  import opened ReadOnlyArrayReads

  class Reconstruction {
    var arrays: map<string, Array>
    var values: map<string, Array>
    var nextHandle: nat
    ghost const original: map<string, Array>
    ghost var plan: Plan

    ghost predicate Valid()
      reads this
    {
      Consistent(original, Tables(arrays, values), plan)
    }

    constructor (arrays: map<string, Array>, values: map<string, Array>)
      ensures Valid() && original == values && plan == Plan(map[], map[], map[], map[])
      ensures this.arrays == arrays && this.values == values
    {
      this.arrays, this.values, nextHandle := arrays, values, 0;
      original, plan := values, Plan(map[], map[], map[], map[]);
    }

    /** File an array under the next handle that no array has. */
    method SaveArray(a: Array) returns (handle: string)
      modifies this`values, this`nextHandle
      ensures handle !in old(values) && values == old(values)[handle := a]
    {
      handle := Handle(nextHandle);
      nextHandle := nextHandle + 1;
      ghost var tried: set<string> := {};
      while handle in values
        invariant nextHandle > 0 && handle == Handle(nextHandle - 1)
        invariant tried <= values.Keys && forall h | h in tried :: exists j: nat :: j < nextHandle - 1 && h == Handle(j)
        invariant values == old(values)
        decreases values.Keys - tried
      {
        if handle in tried {
          var j: nat :| j < nextHandle - 1 && handle == Handle(j);
          HandleInjective(j, nextHandle - 1);
        }
        tried := tried + {handle};
        handle := Handle(nextHandle);
        nextHandle := nextHandle + 1;
      }
      values := values[handle := a];
    }

    /** A read-as-default array of the sort. */
    method EmptyArray(sort: Sort) returns (a: Array)
      requires Valid() && sort.ArraySort?
      modifies this
      ensures Valid() && Empty(plan, sort, a)
      ensures arrays == old(arrays) && plan == old(plan).(blank := plan.blank)
      decreases sort, 0
    {
      var default := DefaultValue(sort.element);
      a := Array(Spell(sort.index), Spell(sort.element), default, []);
    }

    method DefaultValue(sort: Sort) returns (default: string)
      requires Valid()
      modifies this
      ensures Valid() && DefaultOk(plan, default, sort)
      ensures arrays == old(arrays) && plan == old(plan).(blank := plan.blank)
      decreases sort, 1
    {
      if sort.ArraySort? {
        var a := EmptyArray(sort);
        ghost var before := Tables(arrays, values);
        default := SaveArray(a);
        GrowBlank(original, before, plan, default, sort, a);
        plan := plan.(blank := plan.blank[default := sort]);
      } else {
        default := ScalarDefault(sort);
      }
    }

    function Here(): Tables
      reads this
    {
      Tables(arrays, values)
    }

    method AppendAt(spot: Spot, key: string, token: string)
      requires Exists(Here(), spot)
      modifies this`arrays, this`values
      ensures Here() == Put(old(Here()), spot, Append(Get(old(Here()), spot), key, token))
    {
      match spot
      case Root(name) => arrays := arrays[name := Append(arrays[name], key, token)];
      case Node(handle) => values := values[handle := Append(values[handle], key, token)];
    }

    /** Insert a value at a path; exactly an occupied path with another value, or a path
        longer than the sort allows, is refused. */
    method Insert(spot: Spot, sort: Sort, path: seq<string>, pos: nat, value: string, ghost loc: Location) returns (ok: bool)
      requires Valid() && Keeps(plan, loc, spot) && pos < |path| && loc.path == path[..pos]
      requires pos < Depth(plan.sorts[loc.name]) <= |path| && sort == Strip(plan.sorts[loc.name], pos)
      modifies this
      ensures Valid() && plan.sorts == old(plan.sorts)
      ensures ok <==> (|path| == Depth(plan.sorts[loc.name]) && Agrees(old(plan.table), Location(loc.name, path), value))
      ensures plan.table == if ok then old(plan.table)[Location(loc.name, path) := value] else old(plan.table)
      ensures forall n | n in old(arrays) && n !in plan.sorts :: n in arrays && arrays[n] == old(arrays)[n]
      decreases |path| - pos
    {
      hide Consistent, HeaderOk, Strip, Depth;
      AtSpot(original, Here(), plan, loc, spot);
      var key := path[pos];
      var entry := Find(Get(Here(), spot).entries, key);
      FindExact(plan, loc, Get(Here(), spot), key);
      assert path[..pos + 1] == path[..pos] + [key];
      StripStep(plan.sorts[loc.name], pos);
      DepthOfArray(sort.element);
      if pos + 1 == |path| {
        assert path == path[..pos + 1];
        if entry.Some? {
          return entry.value == value;
        }
        GrowLeaf(original, Here(), plan, loc, spot, key, value);
        AppendAt(spot, key, value);
        plan := plan.(table := plan.table[Child(loc, key) := value]);
        return true;
      }
      if !sort.element.ArraySort? {
        return false;
      }
      var child: string;
      if entry.None? {
        var a := EmptyArray(sort.element);
        ghost var before := Here();
        AtSpot(original, before, plan, loc, spot);
        FindExact(plan, loc, Get(before, spot), key);
        child := SaveArray(a);
        GrowNode(original, before, plan, loc, spot, key, child, a);
        AppendAt(spot, key, child);
        plan := plan.(node := plan.node[Child(loc, key) := child]);
      } else {
        child := entry.value;
      }
      ok := Insert(Node(child), sort.element, path, pos + 1, value, Child(loc, key));
    }

    /** Unwind a chain of selects from the outermost index inwards. */
    method Unwind(ir: Dag, read: Read) returns (base: nat, indices: seq<nat>)
      requires Ordered(ir) && ValidRead(ir, read)
      ensures base == Base(ir, read.operand) && indices == Indices(ir, read.operand) + [read.index]
    {
      var backwards: seq<nat> := [read.index];
      base := read.operand;
      while ir[base].op.Select? && |ir[base].children| == 2
        invariant base < |ir| && Base(ir, base) == Base(ir, read.operand)
        invariant Indices(ir, base) + Reversed(backwards) == Indices(ir, read.operand) + [read.index]
        decreases base
      {
        ReversedSnoc(backwards, ir[base].children[1]);
        backwards := backwards + [ir[base].children[1]];
        base := ir[base].children[0];
      }
      indices := Reversed(backwards);
    }

    method ReadTokens(tokens: Tokens, ids: seq<nat>) returns (path: Option<seq<string>>)
      ensures path == TokensOf(tokens, ids)
    {
      var collected := [];
      for k := 0 to |ids|
        invariant TokensOf(tokens, ids[..k]) == Some(collected)
      {
        assert ids[..k + 1][..k] == ids[..k];
        var token := tokens(ids[k]);
        if token.None? {
          NoTokens(tokens, ids, k);
          return None;
        }
        collected := collected + [token.value];
      }
      assert ids[..|ids|] == ids;
      return Some(collected);
    }

    /** The path and value of one read. */
    method LocateRead(ir: Dag, read: Read) returns (r: Option<Reading>)
      requires Ordered(ir) && ValidRead(ir, read)
      ensures r == Locate(ir, read)
    {
      var base, indices := Unwind(ir, read);
      if !ir[base].op.Variable? {
        return None;
      }
      var path := ReadTokens(read.tokens, indices);
      if path.None? {
        return None;
      }
      var value := read.tokens(read.variable);
      if value.None? {
        return None;
      }
      return Some(Reading(Location(ir[base].op.name, path.value), ir[base].sort, value.value));
    }

    /** Process every read.  Exactly an unreadable read or a conflict refuses the model;
        otherwise every read is served and the arrays are default elsewhere. */
    method Rebuild(ir: Dag, eliminated: seq<Read>) returns (ok: bool)
      requires Valid() && plan == Plan(map[], map[], map[], map[])
      requires Ordered(ir) && WellSorted(ir) && AllValid(ir, eliminated)
      modifies this
      ensures ok <==> Servable(ir, eliminated)
      ensures ok ==> AllServed(ir, eliminated, arrays, values)
      ensures ok ==> forall id: nat, path | id < |ir| && ir[id].op.Variable? :: DefaultElsewhere(ir, eliminated, arrays, values, id, path)
      ensures ok ==> forall n | n in old(arrays) && !Rebuilt(ir, eliminated, n) :: n in arrays && arrays[n] == old(arrays)[n]
      ensures forall h | h in original :: h in values && values[h] == original[h]
    {
      hide RootsOk, NodesOk, BlanksOk, Closed, Unshared, FullPaths, RecordOk, Locate, LocateAll, Agreeing, Covers, ReadsBack, Empty, Acceptable, Servable, AllServed, DefaultElsewhere, Rebuilt;
      var rebuilt: set<string> := {};
      ghost var readings: seq<Reading> := [];
      AcceptableIsServable(ir, eliminated);
      NothingYet(ir, eliminated);
      for k := 0 to |eliminated|
        invariant Valid() && LocateAll(ir, eliminated[..k]) == Some(readings) && Agreeing(readings)
        invariant Covers(readings, plan) && rebuilt == plan.sorts.Keys
        invariant forall r | r in readings :: Sorted(ir, r)
        invariant forall n | n in old(arrays) && n !in plan.sorts :: n in arrays && arrays[n] == old(arrays)[n]
      {
        ghost var covered := plan;
        var read := LocateRead(ir, eliminated[k]);
        LocateNext(ir, eliminated, k);
        if read.None? {
          NotAcceptable(ir, eliminated, k + 1);
          return false;
        }
        var Reading(loc, sort, value) := read.value;
        LocatedDepth(ir, eliminated[k]);
        if loc.name !in rebuilt {
          rebuilt := rebuilt + {loc.name};
          var a := EmptyArray(sort);
          GrowRoot(original, Here(), plan, loc.name, sort, a);
          arrays, plan := arrays[loc.name := a], plan.(sorts := plan.sorts[loc.name := sort]);
        } else {
          OneSort(ir, readings, plan, read.value);
        }
        ok := Insert(Root(loc.name), sort, loc.path, 0, value, Location(loc.name, []));
        if !ok {
          ClashFound(readings, covered, read.value);
          NotAcceptable(ir, eliminated, k + 1);
          return false;
        }
        CoversMore(readings, covered, read.value, plan);
        readings := readings + [read.value];
      }
      assert eliminated[..|eliminated|] == eliminated;
      CoversReadsBack(original, Here(), plan, readings);
      NamesCovered(ir, eliminated, readings, plan);
      ReadsBackServes(ir, eliminated, readings, arrays, values);
      forall id: nat, path | id < |ir| && ir[id].op.Variable? ensures DefaultElsewhere(ir, eliminated, arrays, values, id, path) {
        ReadsBackDefaults(ir, eliminated, readings, arrays, values, id, path);
      }
      forall n | n in plan.sorts ensures Rebuilt(ir, eliminated, n) {
        RebuiltNames(ir, eliminated, readings, n);
      }
      return true;
    }
  }
}
