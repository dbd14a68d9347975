/**
 The linked nodes of tree.c. Memory is an arena: every allocated node address maps to a cell,
 and the two list links of the optional sorted list are kept beside the cells. A field
 assignment through a pointer is one update of the arena, in the order the C code makes it.
 */
module TreeNodes {
  import opened Bytes
  import opened Addresses
  import opened TreeKeys
  import opened TreeShape
  import opened TreeItems

  /** rim_tree_node without its two list links. */
  datatype Cell = Cell(data: int, lesser: Ptr, greater: Ptr, height: nat, keyPresent: bool, key: Key)

  type Cells = map<Ptr, Cell>

  /** What rim_calloc returns. */
  const BLANK := Cell(0, NULL, NULL, 0, false, [])

  datatype Dir = Lesser | Greater

  function Child(c: Cell, dir: Dir): Ptr {
    if dir.Lesser? then c.lesser else c.greater
  }

  /** RIM_TREE_SET_PARENT. */
  function SetChild(c: Cell, dir: Dir, r: Ptr): Cell {
    if dir.Lesser? then c.(lesser := r) else c.(greater := r)
  }

  function HeightAt(c: Cells, p: Ptr): nat {
    if p == NULL || p !in c then 0 else c[p].height
  }

  /** rim_tree_height on the cell at p. */
  function CellHeight(c: Cells, p: Ptr): nat
    requires p in c
  {
    SevenBits(1 + Max(HeightAt(c, c[p].lesser), HeightAt(c, c[p].greater)))
  }

  /** The nodes reached from p are exactly the shape t, with its payloads and stored heights. */
  ghost predicate Rep(c: Cells, p: Ptr, t: Tree)
    decreases t
  {
    match t
    case Nil => p == NULL
    case Bin(l, n, k, d, h, r) =>
      && p == n && n != NULL && n in c
      && c[n] == Cell(d, c[n].lesser, c[n].greater, h, true, k)
      && Rep(c, c[n].lesser, l) && Rep(c, c[n].greater, r)
  }

  ghost predicate Same(c0: Cells, c1: Cells, s: set<Ptr>) {
    forall n :: n in s ==> n in c0 && n in c1 && c1[n] == c0[n]
  }

  /** c1 differs from c0 only on s, and at the parent only in one link and in its height. */
  ghost predicate ChangesOnly(c0: Cells, c1: Cells, s: set<Ptr>, parent: Ptr, dir: Dir) {
    && parent in c0 && parent in c1
    && c1[parent] == SetChild(c0[parent], dir, Child(c1[parent], dir)).(height := c1[parent].height)
    && forall n :: n in c0 && n !in s && n != parent ==> n in c1 && c1[n] == c0[n]
  }

  lemma {:induction false} RepFrame(c0: Cells, c1: Cells, p: Ptr, t: Tree)
    requires Rep(c0, p, t) && Same(c0, c1, Nodes(t))
    ensures Rep(c1, p, t)
    decreases t
  {
    if t.Bin? {
      RepFrame(c0, c1, c0[p].lesser, t.left);
      RepFrame(c0, c1, c0[p].greater, t.right);
    }
  }

  lemma {:induction false} RepAllocated(c: Cells, p: Ptr, t: Tree)
    requires Rep(c, p, t)
    ensures Nodes(t) <= c.Keys && NULL !in Nodes(t)
    ensures HeightAt(c, p) == H(t)
    decreases t
  {
    if t.Bin? {
      RepAllocated(c, c[p].lesser, t.left);
      RepAllocated(c, c[p].greater, t.right);
    }
  }

  /** A change below one link of the top cell, seen from the whole shape. */
  lemma {:induction false} RepNewLeft(c0: Cells, c1: Cells, t: Tree, s: set<Ptr>, l: Tree)
    requires t.Bin? && Rep(c0, t.node, t) && Distinct(t)
    requires ChangesOnly(c0, c1, s, t.node, Lesser) && s !! Nodes(t.right)
    requires Rep(c1, c1[t.node].lesser, l)
    ensures Rep(c1, t.node, t.(left := l, ht := c1[t.node].height))
  {
    RepAllocated(c0, c0[t.node].greater, t.right);
    RepFrame(c0, c1, c0[t.node].greater, t.right);
  }

  lemma {:induction false} RepNewRight(c0: Cells, c1: Cells, t: Tree, s: set<Ptr>, r: Tree)
    requires t.Bin? && Rep(c0, t.node, t) && Distinct(t)
    requires ChangesOnly(c0, c1, s, t.node, Greater) && s !! Nodes(t.left)
    requires Rep(c1, c1[t.node].greater, r)
    ensures Rep(c1, t.node, t.(right := r, ht := c1[t.node].height))
  {
    RepAllocated(c0, c0[t.node].lesser, t.left);
    RepFrame(c0, c1, c0[t.node].lesser, t.left);
  }

  /** The child in one direction is there, or was created without a key. */
  ghost predicate Ensured(c0: Cells, cm: Cells, node: Ptr, sub: Tree, dir: Dir) {
    && node in c0 && node in cm
    && var x := Child(cm[node], dir);
       if sub.Nil? then x != NULL && x !in c0 && cm == c0[node := SetChild(c0[node], dir, x)][x := BLANK]
       else cm == c0 && x == sub.node
  }

  /** The same below a child that was there or created. */
  lemma {:induction false} EnsuredLeft(c0: Cells, cm: Cells, c1: Cells, t: Tree, n: Ptr, u: Tree)
    requires t.Bin? && Rep(c0, t.node, t) && Distinct(t) && Ensured(c0, cm, t.node, t.left, Lesser)
    requires ChangesOnly(cm, c1, Nodes(t.left) + {cm[t.node].lesser, n}, t.node, Lesser)
    requires Rep(c1, c1[t.node].lesser, u) && (n in c0 ==> n in Nodes(t.left))
    ensures Rep(c1, t.node, t.(left := u, ht := c1[t.node].height))
    ensures forall y :: y in c0 && y !in Nodes(t) ==> y in c1 && c1[y] == c0[y]
  {
    RepAllocated(c0, c0[t.node].lesser, t.left);
    RepAllocated(c0, c0[t.node].greater, t.right);
    RepNewLeft(c0, c1, t, Nodes(t.left) + {cm[t.node].lesser, n}, u);
  }

  lemma {:induction false} EnsuredRight(c0: Cells, cm: Cells, c1: Cells, t: Tree, n: Ptr, u: Tree)
    requires t.Bin? && Rep(c0, t.node, t) && Distinct(t) && Ensured(c0, cm, t.node, t.right, Greater)
    requires ChangesOnly(cm, c1, Nodes(t.right) + {cm[t.node].greater, n}, t.node, Greater)
    requires Rep(c1, c1[t.node].greater, u) && (n in c0 ==> n in Nodes(t.right))
    ensures Rep(c1, t.node, t.(right := u, ht := c1[t.node].height))
    ensures forall y :: y in c0 && y !in Nodes(t) ==> y in c1 && c1[y] == c0[y]
  {
    RepAllocated(c0, c0[t.node].greater, t.right);
    RepAllocated(c0, c0[t.node].lesser, t.left);
    RepNewRight(c0, c1, t, Nodes(t.right) + {cm[t.node].greater, n}, u);
  }

  /** Only the top cell's own height changes. */
  lemma {:induction false} RepNewHeight(c: Cells, t: Tree, h: nat)
    requires t.Bin? && Rep(c, t.node, t) && Distinct(t)
    ensures Rep(c[t.node := c[t.node].(height := h)], t.node, t.(ht := h))
  {
    var c1 := c[t.node := c[t.node].(height := h)];
    RepAllocated(c, c[t.node].lesser, t.left);
    RepAllocated(c, c[t.node].greater, t.right);
    RepFrame(c, c1, c[t.node].lesser, t.left);
    RepFrame(c, c1, c[t.node].greater, t.right);
  }

  // ---------- rotations on cells ----------

  lemma {:induction false} RotatedRight(c0: Cells, c1: Cells, c2: Cells, parent: Ptr, t: Tree)
    requires t.Bin? && t.left.Bin? && Rep(c0, t.node, t) && Distinct(t)
    requires parent in c0 && parent !in Nodes(t)
    requires c1.Keys == c2.Keys == c0.Keys
    requires var l := t.left.node;
      && l in c0 && c1[l] == c0[l].(greater := t.node)
      && c1[t.node] == c0[t.node].(lesser := c0[l].greater)
      && forall n :: n in c0 && n != parent && n != l && n != t.node ==> c1[n] == c0[n]
    requires forall n :: n in c0 && n != parent && n != t.node ==> c2[n] == c1[n]
    requires c2[t.node] == c1[t.node].(height := CellHeight(c1, t.node))
    ensures Rep(c2, t.left.node, RotateRight(t))
  {
    var l := t.left.node;
    assert Distinct(t.left);
    RepAllocated(c0, c0[l].lesser, t.left.left);
    RepAllocated(c0, c0[l].greater, t.left.right);
    RepAllocated(c0, c0[t.node].greater, t.right);
    RepFrame(c0, c2, c0[l].lesser, t.left.left);
    RepFrame(c0, c2, c0[l].greater, t.left.right);
    RepFrame(c0, c2, c0[t.node].greater, t.right);
    RepFrame(c0, c1, c0[l].greater, t.left.right);
    RepFrame(c0, c1, c0[t.node].greater, t.right);
    RepAllocated(c1, c0[l].greater, t.left.right);
    RepAllocated(c1, c0[t.node].greater, t.right);
    assert Rep(c2, t.node, Reheight(t.(left := t.left.right)));
  }

  lemma {:induction false} RotatedLeft(c0: Cells, c1: Cells, c2: Cells, parent: Ptr, t: Tree)
    requires t.Bin? && t.right.Bin? && Rep(c0, t.node, t) && Distinct(t)
    requires parent in c0 && parent !in Nodes(t)
    requires c1.Keys == c2.Keys == c0.Keys
    requires var g := t.right.node;
      && g in c0 && c1[g] == c0[g].(lesser := t.node)
      && c1[t.node] == c0[t.node].(greater := c0[g].lesser)
      && forall n :: n in c0 && n != parent && n != g && n != t.node ==> c1[n] == c0[n]
    requires forall n :: n in c0 && n != parent && n != t.node ==> c2[n] == c1[n]
    requires c2[t.node] == c1[t.node].(height := CellHeight(c1, t.node))
    ensures Rep(c2, t.right.node, RotateLeft(t))
  {
    var g := t.right.node;
    assert Distinct(t.right);
    RepAllocated(c0, c0[g].lesser, t.right.left);
    RepAllocated(c0, c0[g].greater, t.right.right);
    RepAllocated(c0, c0[t.node].lesser, t.left);
    RepFrame(c0, c2, c0[g].lesser, t.right.left);
    RepFrame(c0, c2, c0[g].greater, t.right.right);
    RepFrame(c0, c2, c0[t.node].lesser, t.left);
    RepFrame(c0, c1, c0[g].lesser, t.right.left);
    RepFrame(c0, c1, c0[t.node].lesser, t.left);
    RepAllocated(c1, c0[g].lesser, t.right.left);
    RepAllocated(c1, c0[t.node].lesser, t.left);
    assert Rep(c2, t.node, Reheight(t.(right := t.right.left)));
  }

  lemma {:induction false} InsideCells(c: Cells, t: Tree)
    requires t.Bin? && Rep(c, t.node, t)
    ensures Nodes(t) <= c.Keys && NULL !in Nodes(t)
    ensures forall y :: y in InOrder(t) || y in InOrder(t.left) || y in InOrder(t.right) ==> y in Nodes(t)
    ensures c[t.node].lesser == NULL <==> t.left.Nil?
    ensures c[t.node].greater == NULL <==> t.right.Nil?
  {
    RepAllocated(c, t.node, t);
    InOrderNodes(t); InOrderNodes(t.left); InOrderNodes(t.right);
    forall y | y in InOrder(t) ensures y in Nodes(t) { assert y in SetOf(InOrder(t)); }
    forall y | y in InOrder(t.left) ensures y in Nodes(t) { assert y in SetOf(InOrder(t.left)); }
    forall y | y in InOrder(t.right) ensures y in Nodes(t) { assert y in SetOf(InOrder(t.right)); }
  }

  lemma {:induction false} InsertedLeft(kt: KeyType, t: Tree, k: Key, d: int, n: Ptr)
    requires t.Bin? && Distinct(t) && Compare(kt, k, t.key) < 0
    requires Find(kt, t.left, k).Nil? ==> n !in Nodes(t)
    ensures Find(kt, t, k) == Find(kt, t.left, k)
    ensures var l := Insert(kt, t.left, k, d, n);
            && Distinct(t.(left := l))
            && Nodes(t.(left := l)) == (if Find(kt, t, k).Bin? then Nodes(t) else Nodes(t) + {n})
            && Insert(kt, t, k, d, n) == (if t.left.Nil? then t.(left := l) else Balance(t.(left := Rebalance(l))))
            && InOrder(Insert(kt, t, k, d, n)) == InOrder(l) + ([t.node] + InOrder(t.right))
  {
    InsertNodes(kt, t.left, k, d, n);
    InsertLeftOrder(kt, t, k, d, n);
  }

  lemma {:induction false} InsertedRight(kt: KeyType, t: Tree, k: Key, d: int, n: Ptr)
    requires t.Bin? && Distinct(t) && Compare(kt, k, t.key) > 0
    requires Find(kt, t.right, k).Nil? ==> n !in Nodes(t)
    ensures Find(kt, t, k) == Find(kt, t.right, k)
    ensures var r := Insert(kt, t.right, k, d, n);
            && Distinct(t.(right := r))
            && Nodes(t.(right := r)) == (if Find(kt, t, k).Bin? then Nodes(t) else Nodes(t) + {n})
            && Insert(kt, t, k, d, n) == (if t.right.Nil? then t.(right := r) else Balance(t.(right := Rebalance(r))))
            && InOrder(Insert(kt, t, k, d, n)) == InOrder(t.left) + [t.node] + InOrder(r)
  {
    InsertNodes(kt, t.right, k, d, n);
    InsertRightOrder(kt, t, k, d, n);
  }

  /** Only the top cell's payload changes. */
  lemma {:induction false} RepNewPayload(c: Cells, t: Tree, k: Key, d: int)
    requires t.Bin? && Rep(c, t.node, t) && Distinct(t)
    ensures Rep(c[t.node := c[t.node].(key := k, data := d)], t.node, t.(key := k, data := d))
  {
    var c1 := c[t.node := c[t.node].(key := k, data := d)];
    RepAllocated(c, c[t.node].lesser, t.left);
    RepAllocated(c, c[t.node].greater, t.right);
    RepFrame(c, c1, c[t.node].lesser, t.left);
    RepFrame(c, c1, c[t.node].greater, t.right);
  }

  lemma {:induction false} RepEntry(c: Cells, p: Ptr, t: Tree, e: (Ptr, Key, int))
    requires Rep(c, p, t) && e in Entries(t)
    ensures e.0 in c && c[e.0].key == e.1 && c[e.0].data == e.2 && e.0 in Nodes(t)
    decreases t
  {
    if e in Entries(t.left) {
      RepEntry(c, c[p].lesser, t.left, e);
    } else if e in Entries(t.right) {
      RepEntry(c, c[p].greater, t.right, e);
    }
  }

  /** The whole arena: the dummy node, and below it the shape's nodes or, when there are none,
      one root without a key. Nothing else is allocated. */
  ghost predicate Rooted(c: Cells, dummy: Ptr, t: Tree) {
    && dummy != NULL && dummy in c && NULL !in c && dummy !in Nodes(t)
    && var root := c[dummy].lesser;
    && if t.Bin? then Rep(c, root, t) && c.Keys == {dummy} + Nodes(t)
       else root != dummy && c.Keys == {dummy, root} && c[root] == BLANK
  }

  lemma {:induction false} RootedInsert(kt: KeyType, c0: Cells, c1: Cells, dummy: Ptr, t: Tree, k: Key, d: int, n: Ptr)
    requires Healthy(kt, t) && Size(t) + 1 < COUNT_LIMIT
    requires Rooted(c0, dummy, t) && dummy in c1 && Rep(c1, c1[dummy].lesser, Insert(kt, t, k, d, n))
    requires c1.Keys == if Find(kt, t, k).Bin? then c0.Keys else c0.Keys + {n}
    requires Find(kt, t, k).Nil? ==> if t.Nil? then n == c0[dummy].lesser else n !in c0
    ensures Rooted(c1, dummy, Insert(kt, t, k, d, n))
  {
    FindMeans(kt, t, k);
    InsertMeans(kt, t, k, d, n);
    RepAllocated(c1, c1[dummy].lesser, Insert(kt, t, k, d, n));
  }

  lemma {:induction false} RootedDelete(kt: KeyType, c0: Cells, c1: Cells, dummy: Ptr, t: Tree, k: Key)
    requires Healthy(kt, t) && t.Bin?
    requires Rooted(c0, dummy, t) && dummy in c1 && Rep(c1, c1[dummy].lesser, Delete(kt, t, k))
    requires c1.Keys == if Find(kt, t, k).Bin? then c0.Keys - {Gone(kt, t, k)} else c0.Keys
    ensures Delete(kt, t, k).Bin? ==> Rooted(c1, dummy, Delete(kt, t, k))
    ensures Delete(kt, t, k).Nil? ==> c1[dummy].lesser == NULL && c1.Keys == {dummy} && dummy != NULL && NULL !in c1
  {
    FindMeans(kt, t, k);
    DeleteMeans(kt, t, k);
    DeleteNodes(kt, t, k);
    RepAllocated(c1, c1[dummy].lesser, Delete(kt, t, k));
  }

  /** Node i of the order holds entry i. */
  lemma {:induction false} RepItems(c: Cells, p: Ptr, t: Tree)
    requires Rep(c, p, t)
    ensures |InOrder(t)| == |Items(t)|
    ensures forall i :: 0 <= i < |Items(t)| ==>
              && InOrder(t)[i] in c
              && Items(t)[i] == Item(c[InOrder(t)[i]].key, c[InOrder(t)[i]].data)
    decreases t
  {
    if t.Bin? {
      RepItems(c, c[p].lesser, t.left);
      RepItems(c, c[p].greater, t.right);
    }
  }
}
