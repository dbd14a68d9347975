/** Ordered searches: what is known about the part of the order already passed on either side. */
module TreeSearch {
  import opened Bytes
  import opened Addresses
  import opened TreeKeys
  import opened TreeShape
  import opened TreeItems

  /** r is the last position whose key is below the probe. */
  ghost predicate LastBelow(kt: KeyType, equal: bool, s: seq<Item>, probe: Key, r: int) {
    0 <= r < |s| && forall i :: 0 <= i < |s| ==> (Below(kt, equal, s[i].key, probe) <==> i <= r)
  }

  ghost predicate NoneBelowProbe(kt: KeyType, equal: bool, s: seq<Item>, probe: Key) {
    forall i :: 0 <= i < |s| ==> !Below(kt, equal, s[i].key, probe)
  }

  ghost predicate AllBelowProbe(kt: KeyType, equal: bool, s: seq<Item>, probe: Key) {
    forall i :: 0 <= i < |s| ==> Below(kt, equal, s[i].key, probe)
  }

  /** r is the first position whose key is beyond the probe. */
  ghost predicate FirstBeyond(kt: KeyType, equal: bool, s: seq<Item>, probe: Key, r: int) {
    0 <= r < |s| && forall i :: 0 <= i < |s| ==> (Beyond(kt, equal, s[i].key, probe) <==> i >= r)
  }

  ghost predicate NoneBeyondProbe(kt: KeyType, equal: bool, s: seq<Item>, probe: Key) {
    forall i :: 0 <= i < |s| ==> !Beyond(kt, equal, s[i].key, probe)
  }

  ghost predicate AllBeyondProbe(kt: KeyType, equal: bool, s: seq<Item>, probe: Key) {
    forall i :: 0 <= i < |s| ==> Beyond(kt, equal, s[i].key, probe)
  }

  /** A prefix and a suffix of the order: nodes and their entries. */
  datatype Sides = Sides(a: seq<Ptr>, ia: seq<Item>, b: seq<Ptr>, ib: seq<Item>)

  function GoLeft(d: Sides, sub: Tree): Sides
    requires sub.Bin?
  {
    d.(b := [sub.node] + InOrder(sub.right) + d.b, ib := [Item(sub.key, sub.data)] + Items(sub.right) + d.ib)
  }

  function GoRight(d: Sides, sub: Tree): Sides
    requires sub.Bin?
  {
    d.(a := d.a + InOrder(sub.left) + [sub.node], ia := d.ia + Items(sub.left) + [Item(sub.key, sub.data)])
  }

  /** sub is the part of t still searched, d what lies on either side of it. */
  ghost predicate Within(t: Tree, d: Sides, sub: Tree) {
    && InOrder(t) == d.a + InOrder(sub) + d.b
    && Items(t) == d.ia + Items(sub) + d.ib
    && |d.a| == |d.ia| && |d.b| == |d.ib|
  }

  lemma {:induction false} WithinWhole(t: Tree)
    ensures Within(t, Sides([], [], [], []), t)
  {
    assert [] + InOrder(t) + [] == InOrder(t);
    assert [] + Items(t) + [] == Items(t);
  }

  lemma {:induction false} Around<T>(a: seq<T>, l: seq<T>, x: T, r: seq<T>, b: seq<T>)
    ensures a + (l + [x] + r) + b == a + l + ([x] + r + b)
    ensures a + (l + [x] + r) + b == (a + l + [x]) + r + b
  {
  }

  lemma {:induction false} WithinLeft(t: Tree, d: Sides, sub: Tree)
    requires sub.Bin? && Within(t, d, sub)
    ensures Within(t, GoLeft(d, sub), sub.left)
  {
    InOrderNodes(sub.right);
    Around(d.a, InOrder(sub.left), sub.node, InOrder(sub.right), d.b);
    Around(d.ia, Items(sub.left), Item(sub.key, sub.data), Items(sub.right), d.ib);
  }

  lemma {:induction false} WithinRight(t: Tree, d: Sides, sub: Tree)
    requires sub.Bin? && Within(t, d, sub)
    ensures Within(t, GoRight(d, sub), sub.right)
  {
    InOrderNodes(sub.left);
    Around(d.a, InOrder(sub.left), sub.node, InOrder(sub.right), d.b);
    Around(d.ia, Items(sub.left), Item(sub.key, sub.data), Items(sub.right), d.ib);
  }

  // ---------- lesser searches ----------

  /** Everything passed on the left is below the probe, everything passed on the right is not. */
  ghost predicate Narrowed(kt: KeyType, equal: bool, probe: Key, t: Tree, d: Sides, sub: Tree) {
    && Within(t, d, sub) && SearchTree(kt, sub)
    && AllBelowProbe(kt, equal, d.ia, probe) && NoneBelowProbe(kt, equal, d.ib, probe)
  }

  lemma {:induction false} NarrowLeft(kt: KeyType, equal: bool, probe: Key, t: Tree, d: Sides, sub: Tree)
    requires Narrowed(kt, equal, probe, t, d, sub) && sub.Bin? && !Below(kt, equal, sub.key, probe)
    ensures Narrowed(kt, equal, probe, t, GoLeft(d, sub), sub.left)
  {
    WithinLeft(t, d, sub);
    NoneBelow(kt, equal, sub, probe);
  }

  lemma {:induction false} NarrowRight(kt: KeyType, equal: bool, probe: Key, t: Tree, d: Sides, sub: Tree)
    requires Narrowed(kt, equal, probe, t, d, sub) && sub.Bin? && Below(kt, equal, sub.key, probe)
    ensures Narrowed(kt, equal, probe, t, GoRight(d, sub), sub.right)
  {
    WithinRight(t, d, sub);
    AllBelow(kt, equal, sub, probe);
  }

  /** An equal key ends a lesser-or-equal search. */
  lemma {:induction false} NarrowEqual(kt: KeyType, probe: Key, t: Tree, d: Sides, sub: Tree)
    requires Narrowed(kt, true, probe, t, d, sub) && sub.Bin? && sub.key == probe
    ensures exists r :: LastBelow(kt, true, Items(t), probe, r) && r < |InOrder(t)| && InOrder(t)[r] == sub.node
  {
    NarrowRight(kt, true, probe, t, d, sub);
    var e := GoRight(d, sub);
    NotBeyondEqual(kt, sub);
    var r := |e.ia| - 1;
    assert Items(t) == e.ia + (Items(sub.right) + d.ib);
    assert InOrder(t) == e.a + (InOrder(sub.right) + d.b);
    assert InOrder(t)[r] == e.a[r] == sub.node;
    assert LastBelow(kt, true, Items(t), probe, r);
  }

  lemma {:induction false} NotBeyondEqual(kt: KeyType, t: Tree)
    requires t.Bin? && SearchTree(kt, t)
    ensures NoneBelowProbe(kt, true, Items(t.right), t.key)
    ensures NoneBeyondProbe(kt, true, Items(t.left), t.key)
  {
    var l, r := Items(t.left), Items(t.right);
    SortedParts(kt, l, Item(t.key, t.data), r);
    LessStrict(kt, t.key, t.key);
    forall i | 0 <= i < |r| ensures !Below(kt, true, r[i].key, t.key) { LessStrict(kt, t.key, r[i].key); }
    forall i | 0 <= i < |l| ensures !Beyond(kt, true, l[i].key, t.key) { LessStrict(kt, l[i].key, t.key); }
  }

  /** The search has run off the tree. */
  lemma {:induction false} NarrowDone(kt: KeyType, equal: bool, probe: Key, t: Tree, d: Sides)
    requires Narrowed(kt, equal, probe, t, d, Nil)
    ensures |d.a| == |d.ia|
    ensures d.a == [] ==> NoneBelowProbe(kt, equal, Items(t), probe)
    ensures d.a != [] ==>
              && LastBelow(kt, equal, Items(t), probe, |d.a| - 1)
              && |d.a| <= |InOrder(t)| && InOrder(t)[|d.a| - 1] == d.a[|d.a| - 1]
  {
    assert Items(t) == d.ia + d.ib && InOrder(t) == d.a + d.b;
  }

  // ---------- greater searches ----------

  /** Everything passed on the right is beyond the probe, everything passed on the left is not. */
  ghost predicate Raised(kt: KeyType, equal: bool, probe: Key, t: Tree, d: Sides, sub: Tree) {
    && Within(t, d, sub) && SearchTree(kt, sub)
    && NoneBeyondProbe(kt, equal, d.ia, probe) && AllBeyondProbe(kt, equal, d.ib, probe)
  }

  lemma {:induction false} RaiseLeft(kt: KeyType, equal: bool, probe: Key, t: Tree, d: Sides, sub: Tree)
    requires Raised(kt, equal, probe, t, d, sub) && sub.Bin? && Beyond(kt, equal, sub.key, probe)
    ensures Raised(kt, equal, probe, t, GoLeft(d, sub), sub.left)
  {
    WithinLeft(t, d, sub);
    AllBeyond(kt, equal, sub, probe);
  }

  lemma {:induction false} RaiseRight(kt: KeyType, equal: bool, probe: Key, t: Tree, d: Sides, sub: Tree)
    requires Raised(kt, equal, probe, t, d, sub) && sub.Bin? && !Beyond(kt, equal, sub.key, probe)
    ensures Raised(kt, equal, probe, t, GoRight(d, sub), sub.right)
  {
    WithinRight(t, d, sub);
    NoneBeyond(kt, equal, sub, probe);
  }

  /** An equal key ends a greater-or-equal search. */
  lemma {:induction false} RaiseEqual(kt: KeyType, probe: Key, t: Tree, d: Sides, sub: Tree)
    requires Raised(kt, true, probe, t, d, sub) && sub.Bin? && sub.key == probe
    ensures exists r :: FirstBeyond(kt, true, Items(t), probe, r) && r < |InOrder(t)| && InOrder(t)[r] == sub.node
  {
    RaiseLeft(kt, true, probe, t, d, sub);
    var e := GoLeft(d, sub);
    NotBeyondEqual(kt, sub);
    var r := |d.ia| + |Items(sub.left)|;
    InOrderNodes(sub.left);
    assert Items(t) == (d.ia + Items(sub.left)) + e.ib;
    assert InOrder(t) == (d.a + InOrder(sub.left)) + e.b;
    assert InOrder(t)[r] == e.b[0] == sub.node;
    assert FirstBeyond(kt, true, Items(t), probe, r);
  }

  lemma {:induction false} RaiseDone(kt: KeyType, equal: bool, probe: Key, t: Tree, d: Sides)
    requires Raised(kt, equal, probe, t, d, Nil)
    ensures |d.a| == |d.ia| && |d.b| == |d.ib|
    ensures d.b == [] ==> NoneBeyondProbe(kt, equal, Items(t), probe)
    ensures d.b != [] ==>
              && FirstBeyond(kt, equal, Items(t), probe, |d.a|)
              && |d.a| < |InOrder(t)| && InOrder(t)[|d.a|] == d.b[0]
  {
    assert Items(t) == d.ia + d.ib && InOrder(t) == d.a + d.b;
  }

  // ---------- what the results mean ----------

  /** The result of a lesser search is the greatest key below the probe. */
  lemma {:induction false} LastBelowIsGreatest(kt: KeyType, equal: bool, s: seq<Item>, probe: Key, r: int)
    requires Sorted(kt, s) && LastBelow(kt, equal, s, probe, r)
    ensures s[r].key in MapOf(s) && Below(kt, equal, s[r].key, probe)
    ensures forall k :: k in MapOf(s) && Below(kt, equal, k, probe) ==> k == s[r].key || Less(kt, k, s[r].key)
  {
    MapOfAt(kt, s, r);
    forall k | k in MapOf(s) && Below(kt, equal, k, probe) ensures k == s[r].key || Less(kt, k, s[r].key) {
      MapOfKeys(s, k);
      var i :| 0 <= i < |s| && s[i].key == k;
    }
  }

  /** The result of a greater search is the least key beyond the probe. */
  lemma {:induction false} FirstBeyondIsLeast(kt: KeyType, equal: bool, s: seq<Item>, probe: Key, r: int)
    requires Sorted(kt, s) && FirstBeyond(kt, equal, s, probe, r)
    ensures s[r].key in MapOf(s) && Beyond(kt, equal, s[r].key, probe)
    ensures forall k :: k in MapOf(s) && Beyond(kt, equal, k, probe) ==> k == s[r].key || Less(kt, s[r].key, k)
  {
    MapOfAt(kt, s, r);
    forall k | k in MapOf(s) && Beyond(kt, equal, k, probe) ensures k == s[r].key || Less(kt, s[r].key, k) {
      MapOfKeys(s, k);
      var i :| 0 <= i < |s| && s[i].key == k;
    }
  }

  /** Strictly below a key of the order is before it, strictly beyond is after it. */
  lemma {:induction false} StrictNeighbours(kt: KeyType, s: seq<Item>, m: nat, i: nat)
    requires Sorted(kt, s) && m < |s| && i < |s|
    ensures Below(kt, false, s[i].key, s[m].key) <==> i < m
    ensures Beyond(kt, false, s[i].key, s[m].key) <==> i > m
  {
    LessStrict(kt, s[i].key, s[m].key);
  }

  /** A strict lesser search for the key at m ends at m - 1, or fails when m is the first. */
  lemma {:induction false} StrictLesserAt(kt: KeyType, s: seq<Item>, m: nat, found: bool, r: int)
    requires Sorted(kt, s) && m < |s|
    requires if found then LastBelow(kt, false, s, s[m].key, r) else NoneBelowProbe(kt, false, s, s[m].key)
    ensures if found then m > 0 && r == m - 1 else m == 0
  {
    if m > 0 { StrictNeighbours(kt, s, m, m - 1); }
    if found {
      StrictNeighbours(kt, s, m, r);
      assert Below(kt, false, s[r].key, s[m].key);
    }
  }

  lemma {:induction false} StrictGreaterAt(kt: KeyType, s: seq<Item>, m: nat, found: bool, r: int)
    requires Sorted(kt, s) && m < |s|
    requires if found then FirstBeyond(kt, false, s, s[m].key, r) else NoneBeyondProbe(kt, false, s, s[m].key)
    ensures if found then m < |s| - 1 && r == m + 1 else m == |s| - 1
  {
    if m < |s| - 1 { StrictNeighbours(kt, s, m, m + 1); }
    if found {
      StrictNeighbours(kt, s, m, r);
      assert Beyond(kt, false, s[r].key, s[m].key);
    }
  }
}
