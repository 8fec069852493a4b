/** Union-find without ranks or path compression, as the congruence closure uses it. */
module UnionFind {
  type Links = map<nat, nat>

  /** One node's parent stays in the forest, keeps the root and is closer to it. */
  ghost predicate Linked(parent: Links, root: Links, distance: Links, x: nat)
    requires x in parent && x in root && x in distance
  {
    && parent[x] in parent && parent[x] in root && parent[x] in distance
    && root[x] in parent && root[x] in root && parent[root[x]] == root[x] && root[root[x]] == root[x]
    && root[parent[x]] == root[x]
    && if parent[x] == x then root[x] == x && distance[x] == 0 else distance[x] == distance[parent[x]] + 1
  }

  ghost predicate IsForest(parent: Links, root: Links, distance: Links) {
    && parent.Keys == root.Keys == distance.Keys
    && forall x {:trigger Linked(parent, root, distance, x)} | x in parent :: Linked(parent, root, distance, x)
  }

  ghost function Rerooted(root: Links, a: nat, b: nat): Links {
    map x | x in root :: if root[x] == a then b else root[x]
  }

  ghost function Deepened(root: Links, distance: Links, a: nat): Links
    requires distance.Keys <= root.Keys
  {
    map x | x in distance :: if root[x] == a then distance[x] + 1 else distance[x]
  }

  /** Hanging one root below another merges exactly their classes. */
  lemma {:induction false} Hang(parent: Links, root: Links, distance: Links, a: nat, b: nat)
    requires IsForest(parent, root, distance)
    requires a in parent && b in parent && parent[a] == a && parent[b] == b && a != b
    ensures IsForest(parent[a := b], Rerooted(root, a, b), Deepened(root, distance, a))
  {
    var parent', root', distance' := parent[a := b], Rerooted(root, a, b), Deepened(root, distance, a);
    assert Linked(parent, root, distance, a) && Linked(parent, root, distance, b);
    forall x | x in parent' ensures Linked(parent', root', distance', x) {
      assert Linked(parent, root, distance, x);
    }
  }

  class Forest {
    var parent: Links
    ghost var root: Links
    ghost var distance: Links

    ghost predicate Valid()
      reads this
    {
      IsForest(parent, root, distance)
    }

    lemma {:induction false} SameKeys()
      requires Valid()
      ensures parent.Keys == root.Keys
    {
    }

    lemma {:induction false} RootsKnown()
      requires Valid()
      ensures forall x | x in root :: root[x] in root
    {
      forall x | x in root ensures root[x] in root {
        assert Linked(parent, root, distance, x);
      }
    }

    constructor ()
      ensures Valid() && parent == map[] == root
    {
      parent, root, distance := map[], map[], map[];
    }

    method Add(x: nat)
      requires Valid() && x !in parent
      modifies this
      ensures Valid() && root == old(root)[x := x] && parent.Keys == old(parent.Keys) + {x}
    {
      ghost var p, r, d := parent, root, distance;
      parent, root, distance := parent[x := x], root[x := x], distance[x := 0];
      forall y | y in parent ensures Linked(parent, root, distance, y) {
        assert y != x ==> Linked(p, r, d, y);
      }
    }

    method Find(x: nat) returns (r: nat)
      requires Valid() && x in parent
      ensures r in parent && parent[r] == r && r == root[x]
    {
      r := x;
      assert Linked(parent, root, distance, r);
      while parent[r] != r
        invariant r in parent && root[r] == root[x] && Linked(parent, root, distance, r)
        decreases distance[r]
      {
        r := parent[r];
        assert Linked(parent, root, distance, r);
      }
    }

    /** The first class takes the second one's representative; nothing else moves. */
    method Union(a: nat, b: nat)
      requires Valid() && a in parent && b in parent
      modifies this
      ensures Valid() && parent.Keys == old(parent.Keys)
      ensures root == Rerooted(old(root), old(root)[a], old(root)[b])
    {
      var ra := Find(a);
      var rb := Find(b);
      if ra != rb {
        Hang(parent, root, distance, ra, rb);
        parent, root, distance := parent[ra := rb], Rerooted(root, ra, rb), Deepened(root, distance, ra);
      } else {
        parent := parent[ra := rb];
        assert parent == old(parent);
        assert root == Rerooted(root, ra, rb);
      }
    }
  }
}
