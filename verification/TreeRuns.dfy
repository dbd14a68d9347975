/** Whole runs of inserts and deletes on the tree of tree.c. */
module TreeRuns {
  import opened Bytes
  import opened Addresses
  import opened TreeKeys
  import opened TreeShape
  import opened TreeItems

  /** An insert, with the address the allocator gives a new node, or a delete. */
  datatype Call = Put(key: Key, data: int, node: Ptr) | Remove(key: Key)

  function Apply(kt: KeyType, t: Tree, c: Call): Tree {
    match c
    case Put(k, d, n) => Insert(kt, t, k, d, n)
    case Remove(k) => if t.Nil? then t else Delete(kt, t, k)
  }

  function End(kt: KeyType, t: Tree, cs: seq<Call>): Tree {
    if cs == [] then t else Apply(kt, End(kt, t, cs[..|cs| - 1]), cs[|cs| - 1])
  }

  /** The allocator gives addresses that are not in use. */
  ghost predicate NewNodes(kt: KeyType, t: Tree, cs: seq<Call>) {
    forall i :: 0 <= i < |cs| && cs[i].Put? ==> cs[i].node !in Nodes(End(kt, t, cs[..i]))
  }

  /** The same calls on a finite map. An insert of a key that is there changes nothing. */
  ghost function MapAfter(m: map<Key, int>, cs: seq<Call>): map<Key, int> {
    if cs == [] then m
    else
      var before := MapAfter(m, cs[..|cs| - 1]);
      match cs[|cs| - 1]
      case Put(k, d, _) => if k in before then before else before[k := d]
      case Remove(k) => before - {k}
  }

  /** After any run of inserts and deletes the tree is a search tree for exactly the map the same
      calls build, its size is the number of keys, the subtrees of every node differ in height by at
      most one, the stored height of every node but the top one is exact, and no height exceeds 90,
      which seven bits hold. */
  lemma {:induction false} RunRefinesMap(kt: KeyType, cs: seq<Call>)
    requires |cs| < COUNT_LIMIT && NewNodes(kt, Nil, cs)
    ensures var t, m := End(kt, Nil, cs), MapAfter(map[], cs);
      && Healthy(kt, t) && MapOf(Items(t)) == m && Size(t) == |m| <= |cs|
      && Height(t) <= 90
  {
    if cs != [] {
      var front, c := cs[..|cs| - 1], cs[|cs| - 1];
      assert forall i :: 0 <= i < |front| ==> front[i] == cs[i] && front[..i] == cs[..i];
      RunRefinesMap(kt, front);
      hide Healthy, Insert, Delete, MapOf, Items, Height, Nodes;
      CallMeans(kt, End(kt, Nil, front), c, |front|);
    } else {
      assert Items(Nil) == [];
    }
  }

  lemma {:induction false} CallMeans(kt: KeyType, t: Tree, c: Call, n: nat)
    requires Healthy(kt, t) && Size(t) <= n && n + 1 < COUNT_LIMIT
    requires c.Put? ==> c.node !in Nodes(t)
    ensures var u, m := Apply(kt, t, c), MapOf(Items(t));
      && Healthy(kt, u) && Size(u) == |MapOf(Items(u))| <= n + 1 && Height(u) <= 90
      && MapOf(Items(u)) ==
           match c
           case Put(k, d, _) => if k in m then m else m[k := d]
           case Remove(k) => m - {k}
  {
    var u := Apply(kt, t, c);
    if c.Put? {
      InsertMeans(kt, t, c.key, c.data, c.node);
    } else if t.Bin? {
      DeleteMeans(kt, t, c.key);
    } else {
      assert Items(t) == [];
    }
    MapOfSize(kt, Items(u));
    HeightFitsSevenBits(u);
  }
}
