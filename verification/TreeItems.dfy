/**
 What a tree means: its sorted sequence of entries and the map they form. Insert and Delete on
 shapes are shown to be sorted-list insertion and removal.
 */
module TreeItems {
  import opened Bytes
  import opened Addresses
  import opened TreeKeys
  import opened TreeShape

  datatype Item = Item(key: Key, data: int)

  function Items(t: Tree): (s: seq<Item>)
    ensures |s| == Size(t)
  {
    if t.Nil? then [] else Items(t.left) + [Item(t.key, t.data)] + Items(t.right)
  }

  ghost predicate Sorted(kt: KeyType, s: seq<Item>) {
    forall i, j :: 0 <= i < j < |s| ==> Less(kt, s[i].key, s[j].key)
  }

  /** Search trees are those whose in-order entries are sorted. */
  ghost predicate SearchTree(kt: KeyType, t: Tree) {
    Sorted(kt, Items(t))
  }

  ghost function MapOf(s: seq<Item>): map<Key, int> {
    if s == [] then map[] else MapOf(s[1..])[s[0].key := s[0].data]
  }

  /** Reference insertion: scan the sorted list for the place; a key already there wins. */
  function ListInsert(kt: KeyType, s: seq<Item>, k: Key, d: int): seq<Item> {
    if s == [] then [Item(k, d)]
    else if k == s[0].key then s
    else if Compare(kt, k, s[0].key) < 0 then [Item(k, d)] + s
    else [s[0]] + ListInsert(kt, s[1..], k, d)
  }

  /** Reference removal. */
  function ListRemove(s: seq<Item>, k: Key): seq<Item> {
    if s == [] then []
    else if s[0].key == k then s[1..]
    else [s[0]] + ListRemove(s[1..], k)
  }

  ghost predicate HasKey(s: seq<Item>, k: Key) {
    exists i :: 0 <= i < |s| && s[i].key == k
  }

  // ---------- lists ----------

  lemma {:induction false} SortedParts(kt: KeyType, a: seq<Item>, x: Item, b: seq<Item>)
    requires Sorted(kt, a + [x] + b)
    ensures Sorted(kt, a) && Sorted(kt, b)
    ensures forall i :: 0 <= i < |a| ==> Less(kt, a[i].key, x.key)
    ensures forall i :: 0 <= i < |b| ==> Less(kt, x.key, b[i].key)
  {
    var s := a + [x] + b;
    forall i, j | 0 <= i < j < |a| ensures Less(kt, a[i].key, a[j].key) {
      assert s[i] == a[i] && s[j] == a[j];
    }
    forall i, j | 0 <= i < j < |b| ensures Less(kt, b[i].key, b[j].key) {
      assert s[|a| + 1 + i] == b[i] && s[|a| + 1 + j] == b[j];
    }
    forall i | 0 <= i < |a| ensures Less(kt, a[i].key, x.key) {
      assert s[i] == a[i] && s[|a|] == x;
    }
    forall i | 0 <= i < |b| ensures Less(kt, x.key, b[i].key) {
      assert s[|a| + 1 + i] == b[i] && s[|a|] == x;
    }
  }

  lemma {:induction false} InsertLeftOf(kt: KeyType, a: seq<Item>, x: Item, b: seq<Item>, k: Key, d: int)
    requires Compare(kt, k, x.key) < 0
    ensures ListInsert(kt, a + [x] + b, k, d) == ListInsert(kt, a, k, d) + [x] + b
  {
    var s := a + [x] + b;
    CompareDecides(kt, k, x.key);
    if a == [] {
      assert s == [x] + b;
    } else {
      assert s[0] == a[0] && s[1..] == a[1..] + [x] + b;
      InsertLeftOf(kt, a[1..], x, b, k, d);
    }
  }

  lemma {:induction false} InsertRightOf(kt: KeyType, a: seq<Item>, x: Item, b: seq<Item>, k: Key, d: int)
    requires forall i :: 0 <= i < |a| ==> Less(kt, a[i].key, x.key)
    requires Compare(kt, k, x.key) > 0
    ensures ListInsert(kt, a + [x] + b, k, d) == a + [x] + ListInsert(kt, b, k, d)
  {
    var s := a + [x] + b;
    CompareDecides(kt, k, x.key);
    if a == [] {
      assert s == [x] + b;
      LessStrict(kt, k, x.key);
    } else {
      assert s[0] == a[0] && s[1..] == a[1..] + [x] + b;
      assert Less(kt, a[0].key, x.key);
      LessTransitive(kt, a[0].key, x.key, k);
      LessStrict(kt, a[0].key, k);
      CompareDecides(kt, k, a[0].key);
      InsertRightOf(kt, a[1..], x, b, k, d);
    }
  }

  lemma {:induction false} InsertAtPresent(kt: KeyType, a: seq<Item>, x: Item, b: seq<Item>, d: int)
    requires forall i :: 0 <= i < |a| ==> Less(kt, a[i].key, x.key)
    ensures ListInsert(kt, a + [x] + b, x.key, d) == a + [x] + b
  {
    var s := a + [x] + b;
    if a == [] {
      assert s == [x] + b;
    } else {
      assert s[0] == a[0] && s[1..] == a[1..] + [x] + b;
      LessStrict(kt, a[0].key, x.key);
      CompareDecides(kt, x.key, a[0].key);
      InsertAtPresent(kt, a[1..], x, b, d);
    }
  }

  lemma {:induction false} RemoveLeftOf(kt: KeyType, a: seq<Item>, x: Item, b: seq<Item>, k: Key)
    requires Sorted(kt, a + [x] + b) && Less(kt, k, x.key)
    ensures ListRemove(a + [x] + b, k) == ListRemove(a, k) + [x] + b
  {
    var s := a + [x] + b;
    LessStrict(kt, k, x.key);
    if a == [] {
      assert s == [x] + b;
      SortedParts(kt, a, x, b);
      RemoveAbsentBelow(kt, b, x.key, k);
    } else {
      assert s[0] == a[0] && s[1..] == a[1..] + [x] + b;
      SortedTail(kt, s);
      if a[0].key != k { RemoveLeftOf(kt, a[1..], x, b, k); }
    }
  }

  lemma {:induction false} SortedTail(kt: KeyType, s: seq<Item>)
    requires Sorted(kt, s) && s != []
    ensures Sorted(kt, s[1..])
    ensures forall i :: 0 <= i < |s[1..]| ==> Less(kt, s[0].key, s[1..][i].key)
  {
    assert s == [] + [s[0]] + s[1..];
    SortedParts(kt, [], s[0], s[1..]);
  }

  /** Nothing is removed when every key is above the one given. */
  lemma {:induction false} RemoveAbsentBelow(kt: KeyType, b: seq<Item>, low: Key, k: Key)
    requires Less(kt, k, low)
    requires forall i :: 0 <= i < |b| ==> Less(kt, low, b[i].key)
    ensures ListRemove(b, k) == b
  {
    if b != [] {
      LessTransitive(kt, k, low, b[0].key);
      LessStrict(kt, k, b[0].key);
      assert forall i :: 0 <= i < |b[1..]| ==> b[1..][i] == b[i + 1];
      RemoveAbsentBelow(kt, b[1..], low, k);
    }
  }

  lemma {:induction false} RemoveRightOf(kt: KeyType, a: seq<Item>, x: Item, b: seq<Item>, k: Key)
    requires forall i :: 0 <= i < |a| ==> Less(kt, a[i].key, x.key)
    requires Less(kt, x.key, k)
    ensures ListRemove(a + [x] + b, k) == a + [x] + ListRemove(b, k)
  {
    var s := a + [x] + b;
    LessStrict(kt, x.key, k);
    if a == [] {
      assert s == [x] + b;
    } else {
      assert s[0] == a[0] && s[1..] == a[1..] + [x] + b;
      LessTransitive(kt, a[0].key, x.key, k);
      LessStrict(kt, a[0].key, k);
      RemoveRightOf(kt, a[1..], x, b, k);
    }
  }

  lemma {:induction false} RemoveAtPresent(kt: KeyType, a: seq<Item>, x: Item, b: seq<Item>)
    requires forall i :: 0 <= i < |a| ==> Less(kt, a[i].key, x.key)
    ensures ListRemove(a + [x] + b, x.key) == a + b
  {
    var s := a + [x] + b;
    if a == [] {
      assert s == [x] + b;
      assert s[1..] == b == a + b;
    } else {
      assert s[0] == a[0] && s[1..] == a[1..] + [x] + b;
      LessStrict(kt, a[0].key, x.key);
      RemoveAtPresent(kt, a[1..], x, b);
      assert a + b == [a[0]] + (a[1..] + b);
    }
  }

  // ---------- shapes refine lists ----------

  lemma {:induction false} BalanceKeepsItems(t: Tree)
    requires t.Bin?
    ensures Items(Balance(t)) == Items(t)
  {
    var factor := H(t.left) - H(t.right);
    if factor >= 2 {
      if H(t.left.right) > H(t.left.left) {
        RotateLeftKeepsItems(t.left);
        RotateRightKeepsItems(t.(left := RotateLeft(t.left)));
      } else {
        RotateRightKeepsItems(t);
      }
    } else if factor <= -2 {
      if H(t.right.left) > H(t.right.right) {
        RotateRightKeepsItems(t.right);
        RotateLeftKeepsItems(t.(right := RotateRight(t.right)));
      } else {
        RotateLeftKeepsItems(t);
      }
    }
  }

  lemma {:induction false} RotateRightKeepsItems(t: Tree)
    requires t.Bin? && t.left.Bin?
    ensures Items(RotateRight(t)) == Items(t)
  {
    assert Items(RotateRight(t).right) == Items(t.left.right) + [Item(t.key, t.data)] + Items(t.right);
  }

  lemma {:induction false} RotateLeftKeepsItems(t: Tree)
    requires t.Bin? && t.right.Bin?
    ensures Items(RotateLeft(t)) == Items(t)
  {
    assert Items(RotateLeft(t).left) == Items(t.left) + [Item(t.key, t.data)] + Items(t.right.left);
  }

  lemma {:induction false} RebalanceKeepsItems(t: Tree)
    ensures Items(Rebalance(t)) == Items(t)
  {
    if t.Bin? { BalanceKeepsItems(t); }
  }

  /** Tree insertion is sorted-list insertion. */
  lemma {:induction false} InsertRefinesList(kt: KeyType, t: Tree, k: Key, d: int, n: Ptr)
    requires SearchTree(kt, t)
    ensures Items(Insert(kt, t, k, d, n)) == ListInsert(kt, Items(t), k, d)
  {
    if t.Bin? {
      var a, x, b := Items(t.left), Item(t.key, t.data), Items(t.right);
      SortedParts(kt, a, x, b);
      CompareDecides(kt, k, t.key);
      var c := Compare(kt, k, t.key);
      if c == 0 {
        InsertAtPresent(kt, a, x, b, d);
      } else if c < 0 {
        InsertRefinesList(kt, t.left, k, d, n);
        InsertLeftOf(kt, a, x, b, k, d);
        var l := Insert(kt, t.left, k, d, n);
        RebalanceKeepsItems(l);
        BalanceKeepsItems(t.(left := Rebalance(l)));
      } else {
        InsertRefinesList(kt, t.right, k, d, n);
        InsertRightOf(kt, a, x, b, k, d);
        var r := Insert(kt, t.right, k, d, n);
        RebalanceKeepsItems(r);
        BalanceKeepsItems(t.(right := Rebalance(r)));
      }
    }
  }

  lemma {:induction false} LeastIsFirst(t: Tree)
    requires t.Bin?
    ensures Items(t) == [Item(Least(t).key, Least(t).data)] + Items(DeleteLeast(t))
  {
    if t.left.Bin? {
      LeastIsFirst(t.left);
      var l := DeleteLeast(t.left);
      RebalanceKeepsItems(l);
      BalanceKeepsItems(t.(left := Rebalance(l)));
    }
  }

  /** The found node takes the entry of its successor: the lists on both sides are joined. */
  lemma {:induction false} DeleteFoundJoins(t: Tree)
    requires t.Bin? && t.right.Bin?
    ensures var m := Least(t.right);
            Items(Balance(t.(key := m.key, data := m.data, right := Rebalance(DeleteLeast(t.right)))))
              == Items(t.left) + Items(t.right)
  {
    var m := Least(t.right);
    LeastIsFirst(t.right);
    var r := Rebalance(DeleteLeast(t.right));
    RebalanceKeepsItems(DeleteLeast(t.right));
    BalanceKeepsItems(t.(key := m.key, data := m.data, right := r));
    assert Items(t.left) + Items(t.right) == Items(t.left) + [Item(m.key, m.data)] + Items(r);
  }

  /** Tree deletion, including the successor's payload move, is sorted-list removal. */
  lemma {:induction false} DeleteRefinesList(kt: KeyType, t: Tree, k: Key)
    requires t.Bin? && SearchTree(kt, t)
    ensures Items(Delete(kt, t, k)) == ListRemove(Items(t), k)
  {
    var a, x, b := Items(t.left), Item(t.key, t.data), Items(t.right);
    SortedParts(kt, a, x, b);
    CompareDecides(kt, k, t.key);
    var c := Compare(kt, k, t.key);
    if c == 0 {
      RemoveAtPresent(kt, a, x, b);
      if t.right.Bin? { DeleteFoundJoins(t); }
    } else if c < 0 {
      RemoveLeftOf(kt, a, x, b, k);
      if t.left.Bin? {
        DeleteRefinesList(kt, t.left, k);
        var l := Delete(kt, t.left, k);
        RebalanceKeepsItems(l);
        BalanceKeepsItems(t.(left := Rebalance(l)));
      }
    } else {
      RemoveRightOf(kt, a, x, b, k);
      if t.right.Bin? {
        DeleteRefinesList(kt, t.right, k);
        var r := Delete(kt, t.right, k);
        RebalanceKeepsItems(r);
        BalanceKeepsItems(t.(right := Rebalance(r)));
      }
    }
  }

  // ---------- lists refine maps ----------

  lemma {:induction false} MapOfKeys(s: seq<Item>, k: Key)
    ensures k in MapOf(s) <==> HasKey(s, k)
  {
    if s != [] {
      MapOfKeys(s[1..], k);
      if HasKey(s, k) {
        var i :| 0 <= i < |s| && s[i].key == k;
        assert i > 0 ==> s[1..][i - 1].key == k;
      }
      if HasKey(s[1..], k) {
        var i :| 0 <= i < |s[1..]| && s[1..][i].key == k;
        assert s[i + 1].key == k;
      }
    }
  }

  lemma {:induction false} HeadNotInTail(kt: KeyType, s: seq<Item>, low: Key)
    requires Sorted(kt, s)
    requires forall i :: 0 <= i < |s| ==> Less(kt, low, s[i].key)
    ensures low !in MapOf(s)
  {
    MapOfKeys(s, low);
    LessStrict(kt, low, low);
  }

  lemma {:induction false} SortedCons(kt: KeyType, x: Item, s: seq<Item>)
    requires Sorted(kt, s) && forall i :: 0 <= i < |s| ==> Less(kt, x.key, s[i].key)
    ensures Sorted(kt, [x] + s)
  {
    var r := [x] + s;
    forall i, j | 0 <= i < j < |r| ensures Less(kt, r[i].key, r[j].key) {
      assert r[j] == s[j - 1];
      if i > 0 { assert r[i] == s[i - 1]; }
    }
  }

  ghost predicate Above(kt: KeyType, low: Key, s: seq<Item>) {
    forall i :: 0 <= i < |s| ==> Less(kt, low, s[i].key)
  }

  lemma {:induction false} ListInsertAbove(kt: KeyType, s: seq<Item>, k: Key, d: int, low: Key)
    requires Above(kt, low, s) && Less(kt, low, k)
    ensures Above(kt, low, ListInsert(kt, s, k, d))
  {
    if s != [] {
      assert Above(kt, low, s[1..]);
      ListInsertAbove(kt, s[1..], k, d, low);
    }
  }

  lemma {:induction false} ListRemoveAbove(kt: KeyType, s: seq<Item>, k: Key, low: Key)
    requires Above(kt, low, s)
    ensures Above(kt, low, ListRemove(s, k))
  {
    if s != [] {
      assert Above(kt, low, s[1..]);
      ListRemoveAbove(kt, s[1..], k, low);
    }
  }

  lemma {:induction false} AboveAll(kt: KeyType, k: Key, s: seq<Item>)
    requires Sorted(kt, s) && s != [] && Less(kt, k, s[0].key)
    ensures Above(kt, k, s) && k !in MapOf(s)
  {
    forall i | 0 <= i < |s| ensures Less(kt, k, s[i].key) {
      if i > 0 { LessTransitive(kt, k, s[0].key, s[i].key); }
    }
    HeadNotInTail(kt, s, k);
  }

  /** Sorted insertion keeps the list sorted and is a map update of an absent key only. */
  lemma {:induction false} ListInsertMeans(kt: KeyType, s: seq<Item>, k: Key, d: int)
    requires Sorted(kt, s)
    ensures Sorted(kt, ListInsert(kt, s, k, d))
    ensures MapOf(ListInsert(kt, s, k, d)) == if k in MapOf(s) then MapOf(s) else MapOf(s)[k := d]
    ensures |ListInsert(kt, s, k, d)| == if k in MapOf(s) then |s| else |s| + 1
  {
    var r := ListInsert(kt, s, k, d);
    if s == [] {
      assert r[1..] == [];
    } else if k != s[0].key {
      SortedTail(kt, s);
      CompareDecides(kt, k, s[0].key);
      LessStrict(kt, k, s[0].key);
      if Less(kt, k, s[0].key) {
        AboveAll(kt, k, s);
        SortedCons(kt, Item(k, d), s);
        assert r[1..] == s;
      } else {
        var u := ListInsert(kt, s[1..], k, d);
        ListInsertMeans(kt, s[1..], k, d);
        ListInsertAbove(kt, s[1..], k, d, s[0].key);
        SortedCons(kt, s[0], u);
        assert r[1..] == u;
        assert MapOf(r) == MapOf(u)[s[0].key := s[0].data];
      }
    }
  }

  /** Sorted removal keeps the list sorted and removes exactly the key from the map. */
  lemma {:induction false} ListRemoveMeans(kt: KeyType, s: seq<Item>, k: Key)
    requires Sorted(kt, s)
    ensures Sorted(kt, ListRemove(s, k))
    ensures MapOf(ListRemove(s, k)) == MapOf(s) - {k}
    ensures |ListRemove(s, k)| == if k in MapOf(s) then |s| - 1 else |s|
  {
    if s != [] {
      SortedTail(kt, s);
      HeadNotInTail(kt, s[1..], s[0].key);
      if s[0].key != k {
        var r := ListRemove(s, k);
        ListRemoveMeans(kt, s[1..], k);
        ListRemoveAbove(kt, s[1..], k, s[0].key);
        SortedCons(kt, s[0], ListRemove(s[1..], k));
        assert r[1..] == ListRemove(s[1..], k);
      }
    }
  }

  lemma {:induction false} MapOfSize(kt: KeyType, s: seq<Item>)
    requires Sorted(kt, s)
    ensures |MapOf(s)| == |s|
  {
    if s != [] {
      SortedTail(kt, s);
      HeadNotInTail(kt, s[1..], s[0].key);
      MapOfSize(kt, s[1..]);
      assert MapOf(s) == MapOf(s[1..])[s[0].key := s[0].data];
    }
  }

  lemma {:induction false} MapOfAt(kt: KeyType, s: seq<Item>, i: nat)
    requires Sorted(kt, s) && i < |s|
    ensures s[i].key in MapOf(s) && MapOf(s)[s[i].key] == s[i].data
  {
    SortedTail(kt, s);
    HeadNotInTail(kt, s[1..], s[0].key);
    if i > 0 {
      assert s[i] == s[1..][i - 1];
      MapOfAt(kt, s[1..], i - 1);
    }
  }

  // ---------- searching ----------

  /** The exact search finds a key exactly when the map has it, with its data. */
  lemma {:induction false} FindMeans(kt: KeyType, t: Tree, k: Key)
    requires SearchTree(kt, t)
    ensures Find(kt, t, k).Bin? <==> k in MapOf(Items(t))
    ensures Find(kt, t, k).Bin? ==>
              Find(kt, t, k).key == k && MapOf(Items(t))[k] == Find(kt, t, k).data
  {
    FindItem(kt, t, k);
    var s := Items(t);
    if Find(kt, t, k).Bin? {
      var i :| 0 <= i < |s| && s[i] == Item(k, Find(kt, t, k).data);
      MapOfAt(kt, s, i);
    } else {
      MapOfKeys(s, k);
    }
  }

  lemma {:induction false} FindItem(kt: KeyType, t: Tree, k: Key)
    requires SearchTree(kt, t)
    ensures var f := Find(kt, t, k);
            if f.Bin? then f.key == k && Item(k, f.data) in Items(t)
            else forall x :: x in Items(t) ==> x.key != k
  {
    if t.Bin? {
      var a, x, b := Items(t.left), Item(t.key, t.data), Items(t.right);
      SortedParts(kt, a, x, b);
      CompareDecides(kt, k, t.key);
      var c := Compare(kt, k, t.key);
      if c == 0 {
        assert Items(t)[|a|] == x;
      } else if c < 0 {
        FindItem(kt, t.left, k);
        forall i | 0 <= i < |b| ensures b[i].key != k {
          LessTransitive(kt, k, t.key, b[i].key);
          LessStrict(kt, k, b[i].key);
        }
        LessStrict(kt, k, t.key);
      } else {
        FindItem(kt, t.right, k);
        forall i | 0 <= i < |a| ensures a[i].key != k {
          LessTransitive(kt, a[i].key, t.key, k);
          LessStrict(kt, a[i].key, k);
        }
        LessStrict(kt, k, t.key);
      }
    }
  }

  /** The keys a lesser(-or-equal) search may return. */
  predicate Below(kt: KeyType, equal: bool, k: Key, probe: Key) {
    Less(kt, k, probe) || (equal && k == probe)
  }

  /** The keys a greater(-or-equal) search may return. */
  predicate Beyond(kt: KeyType, equal: bool, k: Key, probe: Key) {
    Less(kt, probe, k) || (equal && k == probe)
  }

  /** At a node not below the probe, nothing to its right is below it either. */
  lemma {:induction false} NoneBelow(kt: KeyType, equal: bool, t: Tree, probe: Key)
    requires t.Bin? && SearchTree(kt, t) && !Below(kt, equal, t.key, probe)
    ensures forall x :: x in Items(t.right) ==> !Below(kt, equal, x.key, probe)
    ensures SearchTree(kt, t.left) && SearchTree(kt, t.right)
  {
    SortedParts(kt, Items(t.left), Item(t.key, t.data), Items(t.right));
    LessStrict(kt, t.key, probe);
    forall x | x in Items(t.right) ensures !Below(kt, equal, x.key, probe) {
      if Below(kt, equal, x.key, probe) && Less(kt, x.key, probe) { LessTransitive(kt, t.key, x.key, probe); }
      LessStrict(kt, t.key, x.key);
    }
  }

  lemma {:induction false} AllBelow(kt: KeyType, equal: bool, t: Tree, probe: Key)
    requires t.Bin? && SearchTree(kt, t) && Below(kt, equal, t.key, probe)
    ensures forall x :: x in Items(t.left) ==> Below(kt, equal, x.key, probe)
    ensures SearchTree(kt, t.left) && SearchTree(kt, t.right)
  {
    SortedParts(kt, Items(t.left), Item(t.key, t.data), Items(t.right));
    forall x | x in Items(t.left) ensures Below(kt, equal, x.key, probe) {
      if t.key != probe { LessTransitive(kt, x.key, t.key, probe); }
    }
  }

  lemma {:induction false} AllBeyond(kt: KeyType, equal: bool, t: Tree, probe: Key)
    requires t.Bin? && SearchTree(kt, t) && Beyond(kt, equal, t.key, probe)
    ensures forall x :: x in Items(t.right) ==> Beyond(kt, equal, x.key, probe)
    ensures SearchTree(kt, t.left) && SearchTree(kt, t.right)
  {
    SortedParts(kt, Items(t.left), Item(t.key, t.data), Items(t.right));
    forall x | x in Items(t.right) ensures Beyond(kt, equal, x.key, probe) {
      if t.key != probe { LessTransitive(kt, probe, t.key, x.key); }
    }
  }

  lemma {:induction false} NoneBeyond(kt: KeyType, equal: bool, t: Tree, probe: Key)
    requires t.Bin? && SearchTree(kt, t) && !Beyond(kt, equal, t.key, probe)
    ensures forall x :: x in Items(t.left) ==> !Beyond(kt, equal, x.key, probe)
    ensures SearchTree(kt, t.left) && SearchTree(kt, t.right)
  {
    SortedParts(kt, Items(t.left), Item(t.key, t.data), Items(t.right));
    LessStrict(kt, t.key, probe);
    forall x | x in Items(t.left) ensures !Beyond(kt, equal, x.key, probe) {
      if Beyond(kt, equal, x.key, probe) && Less(kt, probe, x.key) { LessTransitive(kt, probe, x.key, t.key); }
      LessStrict(kt, x.key, t.key);
    }
  }

  // ---------- whole operations ----------

  /** The invariants that hold between operations, on the shape. */
  ghost predicate Healthy(kt: KeyType, t: Tree) {
    Distinct(t) && Sound(t) && SearchTree(kt, t) && Size(t) < COUNT_LIMIT
  }

  /** Insertion keeps every invariant and adds exactly the key, unless it is there. */
  lemma {:induction false} InsertMeans(kt: KeyType, t: Tree, k: Key, d: int, n: Ptr)
    requires Healthy(kt, t) && Size(t) + 1 < COUNT_LIMIT
    requires k !in MapOf(Items(t)) ==> n !in Nodes(t)
    ensures var u, m := Insert(kt, t, k, d, n), MapOf(Items(t));
            && Healthy(kt, u) && u.Bin?
            && Nodes(u) == (if k in m then Nodes(t) else Nodes(t) + {n})
            && Size(u) == (if k in m then Size(t) else Size(t) + 1)
            && MapOf(Items(u)) == (if k in m then m else m[k := d])
  {
    FindMeans(kt, t, k);
    InsertNodes(kt, t, k, d, n);
    InsertKeepsSound(kt, t, k, d, n);
    InsertRefinesList(kt, t, k, d, n);
    ListInsertMeans(kt, Items(t), k, d);
  }

  /** Deletion keeps every invariant and removes exactly the key, if it is there. */
  lemma {:induction false} DeleteMeans(kt: KeyType, t: Tree, k: Key)
    requires Healthy(kt, t) && t.Bin?
    ensures var u, m := Delete(kt, t, k), MapOf(Items(t));
            && Healthy(kt, u)
            && Nodes(u) == (if k in m then Nodes(t) - {Gone(kt, t, k)} else Nodes(t))
            && Size(u) == (if k in m then Size(t) - 1 else Size(t))
            && MapOf(Items(u)) == m - {k}
  {
    FindMeans(kt, t, k);
    DeleteNodes(kt, t, k);
    DeleteKeepsSound(kt, t, k);
    DeleteRefinesList(kt, t, k);
    ListRemoveMeans(kt, Items(t), k);
  }

  /** Which node holds which entry. */
  function Entries(t: Tree): seq<(Ptr, Key, int)> {
    if t.Nil? then [] else Entries(t.left) + [(t.node, t.key, t.data)] + Entries(t.right)
  }

  lemma {:induction false} BalanceKeepsEntries(t: Tree)
    requires t.Bin?
    ensures Entries(Balance(t)) == Entries(t)
  {
    var factor := H(t.left) - H(t.right);
    if factor >= 2 {
      if H(t.left.right) > H(t.left.left) { RotateLeftKeepsEntries(t.left); }
      RotateRightKeepsEntries(
        if H(t.left.right) > H(t.left.left) then t.(left := RotateLeft(t.left)) else t);
    } else if factor <= -2 {
      if H(t.right.left) > H(t.right.right) { RotateRightKeepsEntries(t.right); }
      RotateLeftKeepsEntries(
        if H(t.right.left) > H(t.right.right) then t.(right := RotateRight(t.right)) else t);
    }
  }

  lemma {:induction false} RotateRightKeepsEntries(t: Tree)
    requires t.Bin? && t.left.Bin?
    ensures Entries(RotateRight(t)) == Entries(t)
  {
    assert Entries(RotateRight(t).right) == Entries(t.left.right) + [(t.node, t.key, t.data)] + Entries(t.right);
  }

  lemma {:induction false} RotateLeftKeepsEntries(t: Tree)
    requires t.Bin? && t.right.Bin?
    ensures Entries(RotateLeft(t)) == Entries(t)
  {
    assert Entries(RotateLeft(t).left) == Entries(t.left) + [(t.node, t.key, t.data)] + Entries(t.right.left);
  }

  /** The node an insertion allocates ends up holding exactly the inserted entry. */
  lemma {:induction false} InsertedEntry(kt: KeyType, t: Tree, k: Key, d: int, n: Ptr)
    requires Find(kt, t, k).Nil?
    ensures (n, k, d) in Entries(Insert(kt, t, k, d, n))
  {
    if t.Bin? {
      var c := Compare(kt, k, t.key);
      if c < 0 {
        InsertedEntry(kt, t.left, k, d, n);
        var l := Insert(kt, t.left, k, d, n);
        if t.left.Bin? { BalanceKeepsEntries(l); BalanceKeepsEntries(t.(left := Rebalance(l))); }
      } else {
        InsertedEntry(kt, t.right, k, d, n);
        var r := Insert(kt, t.right, k, d, n);
        if t.right.Bin? { BalanceKeepsEntries(r); BalanceKeepsEntries(t.(right := Rebalance(r))); }
      }
    } else {
      assert Entries(Insert(kt, t, k, d, n))[0] == (n, k, d);
    }
  }
}
