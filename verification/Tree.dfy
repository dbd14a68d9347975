/** tree.c: the threaded AVL tree, its recursive insert and delete and its searches. */
module AvlTree {
  import opened Bytes
  import opened Addresses
  import opened TreeKeys
  import opened TreeShape
  import opened TreeItems
  import opened TreeNodes
  import opened TreeSearch
  import opened TreeThread

  datatype Status = Okay | ErrExist

  class RimTree {
    const keyType: KeyType
    const sorted: bool
    /** Node memory, and the lesser and greater list links of sorted trees. */
    var cells: Cells
    var prev: Links
    var next: Links
    /** The dummy node above the root, the ends of the list and the number of keys. */
    const tree: Ptr
    var min: Ptr
    var max: Ptr
    var count: nat
    /** The shape the nodes below the dummy node represent. */
    ghost var shape: Tree

    // ---------- the tree as a whole ----------

    /** What holds between operations. An empty tree keeps one node without a key as its root. */
    ghost predicate Valid()
      reads this
    {
      && Rooted(cells, tree, shape)
      && (shape.Nil? ==> ListedBlank([], cells[tree].lesser, []))
      && Healthy(keyType, shape) && count == Size(shape) && Listed(InOrder(shape))
    }

    /** The keys of the tree and the data kept with them. */
    ghost function Contents(): map<Key, int>
      reads this
    {
      MapOf(Items(shape))
    }

    /** rim_tree_create. */
    constructor (keyType: KeyType, sorted: bool)
      ensures Valid() && Contents() == map[] && this.keyType == keyType && this.sorted == sorted
    {
      this.keyType := keyType;
      this.sorted := sorted;
      tree := 1;
      cells := map[1 := BLANK];
      prev := if sorted then map[1 := NULL] else map[];
      next := if sorted then map[1 := NULL] else map[];
      min, max, count := NULL, NULL, 0;
      shape := Nil;
      new;
      CreateRoot();
    }

    /** rim_tree_create_root: an empty tree gets a root without a key. */
    method CreateRoot()
      requires tree != NULL && NULL !in cells && cells.Keys == {tree}
      requires shape == Nil && count == 0
      modifies this`cells, this`prev, this`next
      ensures Valid() && Contents() == map[]
    {
      var root := NewNode();
      cells := cells[tree := cells[tree].(lesser := root)];
      assert [] + [root] + [] == [root] && [root][1..] == [];
      assert sorted ==> Linked(prev, next, NULL, [root], NULL);
    }

    /** The descent of rim_tree_insert_f from the dummy node. */
    method InsertFromTop(key: Key, data: int) returns (status: Status, current: Ptr, ghost u: Tree)
      requires Valid() && count + 1 < COUNT_LIMIT
      modifies this`cells, this`prev, this`next, this`min, this`max, this`count
      ensures u == Insert(keyType, shape, key, data, current) || (status == ErrExist && u.Bin?)
      ensures Rooted(cells, tree, u) && Listed(InOrder(u)) && Healthy(keyType, u) && u.Bin? && count == Size(u)
      ensures status == if key in Contents() then ErrExist else Okay
      ensures MapOf(Items(u)) == if key in Contents() then Contents() else Contents()[key := data]
      ensures status == Okay ==> current in Nodes(u) && Find(keyType, shape, key).Nil?
    {
      hide Compare, Balance, Insert, MapOf, Items;
      ghost var n;
      assert [] + InOrder(shape) + [] == InOrder(shape);
      if shape.Bin? { InsideCells(cells, shape); }
      status, current, n := InsertNode(tree, Lesser, cells[tree].lesser, key, data, shape, [], []);
      u := Insert(keyType, shape, key, data, n);
      assert [] + InOrder(u) + [] == InOrder(u);
      RootedInsert(keyType, old(cells), cells, tree, shape, key, data, n);
      FindMeans(keyType, shape, key);
      InsertMeans(keyType, shape, key, data, n);
    }

    /** rim_tree_insert_f. */
    method InsertKey(key: Key, data: int) returns (status: Status, current: Ptr)
      requires Valid() && count + 1 < COUNT_LIMIT
      modifies this
      ensures Valid()
      ensures key !in old(Contents()) ==>
                && status == Okay && Contents() == old(Contents())[key := data]
                && current in Nodes(shape) && cells[current].key == key && cells[current].data == data
      ensures key in old(Contents()) ==> status == ErrExist && Contents() == old(Contents())
    {
      ghost var t := shape;
      ghost var u;
      status, current, u := InsertFromTop(key, data);
      shape := u;
      if status == Okay {
        InsertedEntry(keyType, t, key, data, current);
        RepEntry(cells, cells[tree].lesser, u, (current, key, data));
      }
    }

    /** The descent of rim_tree_delete_f from the dummy node. */
    method DeleteFromTop(key: Key) returns (status: Status, res: int, ghost u: Tree)
      requires Valid() && shape.Bin?
      modifies this`cells, this`prev, this`next, this`min, this`max, this`count
      ensures Healthy(keyType, u) && count == Size(u) && Listed(InOrder(u))
      ensures u.Bin? ==> Rooted(cells, tree, u)
      ensures u.Nil? ==> cells.Keys == {tree} && cells[tree].lesser == NULL
      ensures key in Contents() ==> status == Okay && res == Contents()[key] && count == old(count) - 1
      ensures key !in Contents() ==> status == ErrExist && count == old(count)
      ensures MapOf(Items(u)) == Contents() - {key}
    {
      assert [] + InOrder(shape) + [] == InOrder(shape);
      InsideCells(cells, shape);
      status, res := DeleteNode(tree, Lesser, cells[tree].lesser, key, shape, [], []);
      u := Delete(keyType, shape, key);
      assert [] + InOrder(u) + [] == InOrder(u);
      RootedDelete(keyType, old(cells), cells, tree, shape, key);
      FindMeans(keyType, shape, key);
      DeleteMeans(keyType, shape, key);
    }

    /** rim_tree_delete_f. */
    method DeleteKey(key: Key) returns (status: Status, res: int)
      requires Valid()
      modifies this
      ensures Valid()
      ensures key in old(Contents()) ==>
                && status == Okay && res == old(Contents())[key] && Contents() == old(Contents()) - {key}
                && count == old(count) - 1
      ensures key !in old(Contents()) ==>
                status == ErrExist && Contents() == old(Contents()) && count == old(count)
    {
      hide Compare, Balance, Avl, Exact;
      if shape.Bin? { InsideCells(cells, shape); }
      if cells[tree].lesser != NULL && cells[cells[tree].lesser].keyPresent {
        ghost var u;
        status, res, u := DeleteFromTop(key);
        shape := u;
        if u.Bin? { InsideCells(cells, u); }
        if cells[tree].lesser == NULL {
          CreateRoot();
        }
      } else {
        status, res := ErrExist, 0;
      }
    }

    // ---------- balancing ----------

    /** rim_tree_height. */
    method UpdateHeight(tree: Ptr) returns (factor: int)
      requires tree in cells
      modifies this`cells
      ensures factor == HeightAt(old(cells), old(cells)[tree].lesser) as int - HeightAt(old(cells), old(cells)[tree].greater)
      ensures cells == old(cells)[tree := old(cells)[tree].(height := CellHeight(old(cells), tree))]
    {
      var left: int := HeightAt(cells, cells[tree].lesser);
      var right: int := HeightAt(cells, cells[tree].greater);
      factor := left - right;
      if left > right {
        cells := cells[tree := cells[tree].(height := SevenBits(left + 1))];
      } else {
        cells := cells[tree := cells[tree].(height := SevenBits(right + 1))];
      }
    }

    /** rim_tree_rotate_right. The height the parent is given here is not meaningful: it is
        computed from the new top, whose own height has not been refreshed. */
    method RotateNodesRight(parent: Ptr, dir: Dir, tree: Ptr, ghost t: Tree)
      requires t.Bin? && t.left.Bin? && Rep(cells, tree, t) && Distinct(t)
      requires parent in cells && parent !in Nodes(t)
      modifies this`cells
      ensures cells.Keys == old(cells).Keys
      ensures ChangesOnly(old(cells), cells, Nodes(t), parent, dir)
      ensures Rep(cells, Child(cells[parent], dir), RotateRight(t))
    {
      ghost var c0 := cells;
      var l := cells[tree].lesser;
      cells := cells[parent := SetChild(cells[parent], dir, l)];
      var x := cells[l].greater;
      cells := cells[l := cells[l].(greater := tree)];
      cells := cells[tree := cells[tree].(lesser := x)];
      ghost var c1 := cells;
      var _ := UpdateHeight(tree);
      var _ := UpdateHeight(parent);
      RotatedRight(c0, c1, cells, parent, t);
    }

    /** rim_tree_rotate_left. */
    method RotateNodesLeft(parent: Ptr, dir: Dir, tree: Ptr, ghost t: Tree)
      requires t.Bin? && t.right.Bin? && Rep(cells, tree, t) && Distinct(t)
      requires parent in cells && parent !in Nodes(t)
      modifies this`cells
      ensures cells.Keys == old(cells).Keys
      ensures ChangesOnly(old(cells), cells, Nodes(t), parent, dir)
      ensures Rep(cells, Child(cells[parent], dir), RotateLeft(t))
    {
      ghost var c0 := cells;
      var g := cells[tree].greater;
      cells := cells[parent := SetChild(cells[parent], dir, g)];
      var x := cells[g].lesser;
      cells := cells[g := cells[g].(lesser := tree)];
      cells := cells[tree := cells[tree].(greater := x)];
      ghost var c1 := cells;
      var _ := UpdateHeight(tree);
      var _ := UpdateHeight(parent);
      RotatedLeft(c0, c1, cells, parent, t);
    }

    /** rim_tree_balance. */
    method BalanceNode(parent: Ptr, dir: Dir, tree: Ptr, ghost t: Tree)
      requires t.Bin? && Rep(cells, tree, t) && Distinct(t)
      requires parent in cells && parent !in Nodes(t) && Child(cells[parent], dir) == tree
      modifies this`cells
      ensures cells.Keys == old(cells).Keys
      ensures ChangesOnly(old(cells), cells, Nodes(t), parent, dir)
      ensures Rep(cells, Child(cells[parent], dir), Balance(t))
    {
      hide RotateRight, RotateLeft;
      RepAllocated(cells, cells[tree].lesser, t.left);
      RepAllocated(cells, cells[tree].greater, t.right);
      ghost var t1 := Reheight(t);
      RepNewHeight(cells, t, t1.ht);
      BalanceIgnoresTopHeight(t, t1.ht);
      var factor := UpdateHeight(tree);
      if factor >= 2 {
        LeanLesser(parent, dir, tree, t1);
      } else if factor <= -2 {
        LeanGreater(parent, dir, tree, t1);
      }
    }

    /** The two branches of rim_tree_balance that rotate. */
    method LeanLesser(parent: Ptr, dir: Dir, tree: Ptr, ghost t: Tree)
      requires t.Bin? && Rep(cells, tree, t) && Distinct(t) && H(t.left) - H(t.right) >= 2
      requires parent in cells && parent !in Nodes(t) && Child(cells[parent], dir) == tree
      modifies this`cells
      ensures cells.Keys == old(cells).Keys
      ensures ChangesOnly(old(cells), cells, Nodes(t), parent, dir)
      ensures Rep(cells, Child(cells[parent], dir), Balance(t))
    {
      ghost var t1 := StraightenLesser(tree, t);
      FinishRight(parent, dir, tree, t1);
    }

    method LeanGreater(parent: Ptr, dir: Dir, tree: Ptr, ghost t: Tree)
      requires t.Bin? && Rep(cells, tree, t) && Distinct(t) && H(t.left) - H(t.right) <= -2
      requires parent in cells && parent !in Nodes(t) && Child(cells[parent], dir) == tree
      modifies this`cells
      ensures cells.Keys == old(cells).Keys
      ensures ChangesOnly(old(cells), cells, Nodes(t), parent, dir)
      ensures Rep(cells, Child(cells[parent], dir), Balance(t))
    {
      ghost var t1 := StraightenGreater(tree, t);
      FinishLeft(parent, dir, tree, t1);
    }

    /** Before a right rotation: a lesser child leaning the other way is rotated left first. */
    method StraightenLesser(tree: Ptr, ghost t: Tree) returns (ghost u: Tree)
      requires t.Bin? && t.left.Bin? && Rep(cells, tree, t) && Distinct(t)
      modifies this`cells
      ensures cells.Keys == old(cells).Keys
      ensures forall n :: n in cells && n !in Nodes(t) ==> cells[n] == old(cells)[n]
      ensures u.Bin? && Rep(cells, tree, u) && Distinct(u) && Nodes(u) == Nodes(t)
      ensures u == t.(left := if H(t.left.right) > H(t.left.left) then RotateLeft(t.left) else t.left, ht := u.ht)
    {
      u := t;
      ghost var c0 := cells;
      var l := cells[tree].lesser;
      if l != NULL {
        RepAllocated(c0, c0[l].lesser, t.left.left);
        RepAllocated(c0, c0[l].greater, t.left.right);
        if HeightAt(cells, cells[l].greater) > HeightAt(cells, cells[l].lesser) {
          RotateNodesLeft(tree, Lesser, l, t.left);
          RotateLeftKeepsOrder(t.left);
          RepNewLeft(c0, cells, t, Nodes(t.left), RotateLeft(t.left));
          u := t.(left := RotateLeft(t.left), ht := cells[tree].height);
        }
      }
    }

    /** Before a left rotation: a greater child leaning the other way is rotated right first. */
    method StraightenGreater(tree: Ptr, ghost t: Tree) returns (ghost u: Tree)
      requires t.Bin? && t.right.Bin? && Rep(cells, tree, t) && Distinct(t)
      modifies this`cells
      ensures cells.Keys == old(cells).Keys
      ensures forall n :: n in cells && n !in Nodes(t) ==> cells[n] == old(cells)[n]
      ensures u.Bin? && Rep(cells, tree, u) && Distinct(u) && Nodes(u) == Nodes(t)
      ensures u == t.(right := if H(t.right.left) > H(t.right.right) then RotateRight(t.right) else t.right, ht := u.ht)
    {
      u := t;
      ghost var c0 := cells;
      var g := cells[tree].greater;
      if g != NULL {
        RepAllocated(c0, c0[g].lesser, t.right.left);
        RepAllocated(c0, c0[g].greater, t.right.right);
        if HeightAt(cells, cells[g].lesser) > HeightAt(cells, cells[g].greater) {
          RotateNodesRight(tree, Greater, g, t.right);
          RotateRightKeepsOrder(t.right);
          RepNewRight(c0, cells, t, Nodes(t.right), RotateRight(t.right));
          u := t.(right := RotateRight(t.right), ht := cells[tree].height);
        }
      }
    }

    /** The single rotation that ends rim_tree_balance, and the height it refreshes once more. */
    method FinishRight(parent: Ptr, dir: Dir, tree: Ptr, ghost t: Tree)
      requires t.Bin? && t.left.Bin? && Rep(cells, tree, t) && Distinct(t)
      requires parent in cells && parent !in Nodes(t)
      modifies this`cells
      ensures cells.Keys == old(cells).Keys
      ensures ChangesOnly(old(cells), cells, Nodes(t), parent, dir)
      ensures Rep(cells, Child(cells[parent], dir), RotateRight(t))
    {
      RotateNodesRight(parent, dir, tree, t);
      ghost var c0, u := cells, RotateRight(t);
      RotateRightKeepsOrder(t);
      RepAllocated(c0, c0[tree].lesser, u.right.left);
      RepAllocated(c0, c0[tree].greater, u.right.right);
      var _ := UpdateHeight(tree);
      assert cells == c0;
    }

    method FinishLeft(parent: Ptr, dir: Dir, tree: Ptr, ghost t: Tree)
      requires t.Bin? && t.right.Bin? && Rep(cells, tree, t) && Distinct(t)
      requires parent in cells && parent !in Nodes(t)
      modifies this`cells
      ensures cells.Keys == old(cells).Keys
      ensures ChangesOnly(old(cells), cells, Nodes(t), parent, dir)
      ensures Rep(cells, Child(cells[parent], dir), RotateLeft(t))
    {
      RotateNodesLeft(parent, dir, tree, t);
      ghost var c0, u := cells, RotateLeft(t);
      RotateLeftKeepsOrder(t);
      RepAllocated(c0, c0[tree].lesser, u.left.left);
      RepAllocated(c0, c0[tree].greater, u.left.right);
      var _ := UpdateHeight(tree);
      assert cells == c0;
    }

    /** Balancing of the lesser child, if there is one. */
    method BalanceLesser(tree: Ptr, ghost t: Tree) returns (ghost u: Tree)
      requires t.Bin? && Rep(cells, tree, t) && Distinct(t)
      modifies this`cells
      ensures cells.Keys == old(cells).Keys
      ensures forall n :: n in cells && n !in Nodes(t) ==> cells[n] == old(cells)[n]
      ensures u.Bin? && Rep(cells, tree, u) && Distinct(u) && Nodes(u) == Nodes(t)
      ensures u == t.(left := Rebalance(t.left), ht := u.ht)
    {
      ghost var c0 := cells;
      u := t;
      var child := cells[tree].lesser;
      if child != NULL {
        BalanceNode(tree, Lesser, child, t.left);
        RebalanceKeepsNodes(t.left);
        RepNewLeft(c0, cells, t, Nodes(t.left), Rebalance(t.left));
        u := t.(left := Rebalance(t.left), ht := cells[tree].height);
      }
    }

    /** Balancing of the greater child, if there is one. */
    method BalanceGreater(tree: Ptr, ghost t: Tree) returns (ghost u: Tree)
      requires t.Bin? && Rep(cells, tree, t) && Distinct(t)
      modifies this`cells
      ensures cells.Keys == old(cells).Keys
      ensures forall n :: n in cells && n !in Nodes(t) ==> cells[n] == old(cells)[n]
      ensures u.Bin? && Rep(cells, tree, u) && Distinct(u) && Nodes(u) == Nodes(t)
      ensures u == t.(right := Rebalance(t.right), ht := u.ht)
    {
      ghost var c0 := cells;
      u := t;
      var child := cells[tree].greater;
      if child != NULL {
        BalanceNode(tree, Greater, child, t.right);
        RebalanceKeepsNodes(t.right);
        RepNewRight(c0, cells, t, Nodes(t.right), Rebalance(t.right));
        u := t.(right := Rebalance(t.right), ht := cells[tree].height);
      }
    }

    /** The pair of calls a frame of insert or delete ends with after going down to the lesser
        side: first the child, if there still is one, then the node itself. */
    method BalanceLesserThenNode(parent: Ptr, dir: Dir, tree: Ptr, ghost t: Tree)
      requires t.Bin? && Rep(cells, tree, t) && Distinct(t)
      requires parent in cells && parent !in Nodes(t) && Child(cells[parent], dir) == tree
      modifies this`cells
      ensures cells.Keys == old(cells).Keys
      ensures ChangesOnly(old(cells), cells, Nodes(t), parent, dir)
      ensures Rep(cells, Child(cells[parent], dir), Balance(t.(left := Rebalance(t.left))))
    {
      ghost var u := BalanceLesser(tree, t);
      BalanceIgnoresTopHeight(t.(left := Rebalance(t.left)), u.ht);
      BalanceNode(parent, dir, tree, u);
    }

    method BalanceGreaterThenNode(parent: Ptr, dir: Dir, tree: Ptr, ghost t: Tree)
      requires t.Bin? && Rep(cells, tree, t) && Distinct(t)
      requires parent in cells && parent !in Nodes(t) && Child(cells[parent], dir) == tree
      modifies this`cells
      ensures cells.Keys == old(cells).Keys
      ensures ChangesOnly(old(cells), cells, Nodes(t), parent, dir)
      ensures Rep(cells, Child(cells[parent], dir), Balance(t.(right := Rebalance(t.right))))
    {
      ghost var u := BalanceGreater(tree, t);
      BalanceIgnoresTopHeight(t.(right := Rebalance(t.right)), u.ht);
      BalanceNode(parent, dir, tree, u);
    }

    // ---------- the threaded list ----------

    ghost predicate Listed(s: seq<Ptr>)
      reads this`prev, this`next, this`min, this`max
    {
      sorted ==> Threaded(prev, next, s) && Proper(s) && (s != [] ==> min == s[0] && max == s[|s| - 1])
    }

    /** A fresh node is in the list; it becomes an end of it only once its key is set. */
    ghost predicate ListedBlank(pre: seq<Ptr>, node: Ptr, post: seq<Ptr>)
      reads this`prev, this`next, this`min, this`max
    {
      sorted ==>
        && Threaded(prev, next, pre + [node] + post) && Proper(pre + [node] + post)
        && (pre != [] ==> min == pre[0]) && (post != [] ==> max == post[|post| - 1])
    }

    /** rim_tree_node_create: any address not in use, zeroed. */
    method NewNode() returns (p: Ptr)
      modifies this`cells, this`prev, this`next
      ensures p != NULL && p !in old(cells) && cells == old(cells)[p := BLANK]
      ensures prev == (if sorted then old(prev)[p := NULL] else old(prev))
      ensures next == (if sorted then old(next)[p := NULL] else old(next))
    {
      FreshAddress(cells.Keys);
      p :| p != NULL && p !in cells;
      cells := cells[p := BLANK];
      if sorted { prev, next := prev[p := NULL], next[p := NULL]; }
    }

    /** A new lesser leaf goes into the list just before its parent. */
    method LinkLesser(node: Ptr, x: Ptr, ghost a: seq<Ptr>, ghost b: seq<Ptr>)
      requires Threaded(prev, next, a + [node] + b) && Proper(a + [x] + ([node] + b))
      modifies this`prev, this`next
      ensures Threaded(prev, next, a + [x] + ([node] + b))
    {
      LinkedSplit3(prev, next, a, node, b);
      ThreadedBefore(prev, next, a, node, b, x);
      if prev[node] != NULL { next := next[prev[node] := x]; }
      prev := prev[x := prev[node]];
      prev := prev[node := x];
      next := next[x := node];
    }

    /** A new greater leaf goes into the list just after its parent. */
    method LinkGreater(node: Ptr, x: Ptr, ghost a: seq<Ptr>, ghost b: seq<Ptr>)
      requires Threaded(prev, next, a + [node] + b) && Proper(a + [node] + [x] + b)
      modifies this`prev, this`next
      ensures Threaded(prev, next, a + [node] + [x] + b)
    {
      LinkedSplit3(prev, next, a, node, b);
      ThreadedAfter(prev, next, a, node, b, x);
      if next[node] != NULL { prev := prev[next[node] := x]; }
      next := next[x := next[node]];
      next := next[node := x];
      prev := prev[x := node];
    }

    // ---------- insertion ----------

    /** The place of the key is reached: its node gets the payload. */
    method FillBlank(node: Ptr, key: Key, data: int, ghost pre: seq<Ptr>, ghost post: seq<Ptr>)
      requires node in cells && cells[node] == BLANK && ListedBlank(pre, node, post)
      modifies this`cells, this`min, this`max, this`count
      ensures cells == old(cells)[node := Cell(data, NULL, NULL, 1, true, key)]
      ensures Listed(pre + [node] + post) && count == old(count) + 1
    {
      cells := cells[node := cells[node].(key := key)];
      cells := cells[node := cells[node].(data := data)];
      cells := cells[node := cells[node].(height := 1)];
      cells := cells[node := cells[node].(keyPresent := true)];
      if sorted {
        LinkedSplit3(prev, next, pre, node, post);
        ProperParts(pre, node, post);
        if prev[node] == NULL { min := node; }
        if next[node] == NULL { max := node; }
      }
      count := count + 1;
    }

    /** rim_tree_insert. Shape t is below node; a node without a key is the place itself. */
    method InsertNode(parent: Ptr, dir: Dir, node: Ptr, key: Key, data: int,
                      ghost t: Tree, ghost pre: seq<Ptr>, ghost post: seq<Ptr>)
      returns (status: Status, current: Ptr, ghost n: Ptr)
      requires parent in cells && parent != node && parent !in Nodes(t)
      requires node in cells && node != NULL && Child(cells[parent], dir) == node
      requires t.Nil? ==> cells[node] == BLANK && ListedBlank(pre, node, post)
      requires t.Bin? ==> Rep(cells, node, t) && Distinct(t) && Listed(pre + InOrder(t) + post)
      requires forall y :: y in pre || y in post ==> y in cells
      modifies this`cells, this`prev, this`next, this`min, this`max, this`count
      ensures ChangesOnly(old(cells), cells, Nodes(t) + {node, n}, parent, dir)
      ensures Rep(cells, Child(cells[parent], dir), Insert(keyType, t, key, data, n))
      ensures Listed(pre + InOrder(Insert(keyType, t, key, data, n)) + post)
      ensures Find(keyType, t, key).Nil? ==>
                && status == Okay && current == n && count == old(count) + 1
                && cells.Keys == old(cells).Keys + {n} && (if t.Nil? then n == node else n !in old(cells))
      ensures Find(keyType, t, key).Bin? ==>
                && status == ErrExist && n in Nodes(t) && count == old(count) && cells.Keys == old(cells).Keys
      ensures t.Nil? ==> forall y :: y in old(cells) && y != node ==> cells[y] == old(cells)[y]
      decreases t, 2
    {
      if !cells[node].keyPresent {
        FillBlank(node, key, data, pre, post);
        assert InOrder(Insert(keyType, t, key, data, node)) == [node];
        return Okay, node, node;
      }
      var comparison := Compare(keyType, key, cells[node].key);
      if comparison < 0 {
        status, current, n := InsertLesser(parent, dir, node, key, data, t, pre, post);
      } else if comparison == 0 {
        return ErrExist, NULL, node;
      } else {
        status, current, n := InsertGreater(parent, dir, node, key, data, t, pre, post);
      }
    }

    lemma {:induction false} Lists(t: Tree, pre: seq<Ptr>, post: seq<Ptr>)
      requires t.Bin?
      ensures pre + InOrder(t) + post == pre + InOrder(t.left) + ([t.node] + (InOrder(t.right) + post))
      ensures pre + InOrder(t) + post == (pre + InOrder(t.left)) + [t.node] + (InOrder(t.right) + post)
      ensures pre + InOrder(t) + post == (pre + InOrder(t.left) + [t.node]) + InOrder(t.right) + post
    {
    }

    /** A missing lesser child is created, without a key, and linked into the list. */
    method EnsureLesser(node: Ptr, ghost t: Tree, ghost pre: seq<Ptr>, ghost post: seq<Ptr>)
      returns (isNew: bool)
      requires t.Bin? && Rep(cells, node, t) && Distinct(t) && Listed(pre + InOrder(t) + post)
      requires forall y :: y in pre || y in post ==> y in cells
      modifies this`cells, this`prev, this`next
      ensures isNew <==> t.left.Nil?
      ensures !isNew ==> cells == old(cells) && Listed(pre + InOrder(t.left) + ([node] + (InOrder(t.right) + post)))
      ensures isNew ==>
                node in cells && var x := cells[node].lesser;
                && x != NULL && x !in old(cells)
                && cells == old(cells)[node := old(cells)[node].(lesser := x)][x := BLANK]
                && ListedBlank(pre, x, [node] + (InOrder(t.right) + post))
    {
      hide Compare, Balance;
      ghost var rest := [node] + (InOrder(t.right) + post);
      Lists(t, pre, post);
      InsideCells(cells, t);
      isNew := false;
      if cells[node].lesser == NULL {
        var x := NewNode();
        cells := cells[node := cells[node].(lesser := x)];
        isNew := true;
        if sorted {
          assert pre + InOrder(t.left) == pre && pre + InOrder(t) + post == pre + rest;
          FreshInList(pre, x, rest);
          LinkedSplit3(old(prev), old(next), pre, node, InOrder(t.right) + post);
          LinkedFrame(old(prev), old(next), prev, next, NULL, pre + [node] + (InOrder(t.right) + post), NULL);
          LinkLesser(node, x, pre, InOrder(t.right) + post);
        }
      }
    }

    /** The branch of rim_tree_insert for a lesser key, down to the return of the recursive call. */
    method DescendLesser(node: Ptr, key: Key, data: int, ghost t: Tree, ghost pre: seq<Ptr>, ghost post: seq<Ptr>)
      returns (isNew: bool, status: Status, current: Ptr, ghost n: Ptr)
      requires t.Bin? && Rep(cells, node, t) && Distinct(t) && Listed(pre + InOrder(t) + post)
      requires Compare(keyType, key, t.key) < 0
      requires forall y :: y in pre || y in post ==> y in cells
      modifies this`cells, this`prev, this`next, this`min, this`max, this`count
      ensures isNew <==> t.left.Nil?
      ensures node in cells
      ensures var u := t.(left := Insert(keyType, t.left, key, data, n), ht := cells[node].height);
              Rep(cells, node, u) && (isNew ==> u.ht == t.ht)
      ensures forall y :: y in old(cells) && y !in Nodes(t) ==> y in cells && cells[y] == old(cells)[y]
      ensures Listed(pre + InOrder(Insert(keyType, t, key, data, n)) + post)
      ensures Find(keyType, t, key).Nil? ==>
                && status == Okay && current == n && count == old(count) + 1
                && cells.Keys == old(cells).Keys + {n} && n !in old(cells)
      ensures Find(keyType, t, key).Bin? ==>
                && status == ErrExist && n in Nodes(t) && count == old(count) && cells.Keys == old(cells).Keys
      decreases t, 0
    {
      hide Compare, Balance, Linked, Listed, ListedBlank, Find, Insert;
      ghost var c0 := cells;
      ghost var rest := [node] + (InOrder(t.right) + post);
      InsideCells(c0, t);
      isNew := EnsureLesser(node, t, pre, post);
      ghost var cm := cells;
      assert Ensured(c0, cm, node, t.left, Lesser);
      status, current, n := InsertNode(node, Lesser, cells[node].lesser, key, data, t.left, pre, rest);
      InsertedLeft(keyType, t, key, data, n);
      ghost var l := Insert(keyType, t.left, key, data, n);
      ListedAgain(pre, InOrder(l), node, InOrder(t.right), post);
      EnsuredLeft(c0, cm, cells, t, n, l);
    }

    lemma {:induction false} ListedAgain(pre: seq<Ptr>, l: seq<Ptr>, x: Ptr, r: seq<Ptr>, post: seq<Ptr>)
      ensures pre + l + ([x] + (r + post)) == pre + (l + ([x] + r)) + post
    {
    }

    lemma {:induction false} ListedAgainRight(pre: seq<Ptr>, l: seq<Ptr>, x: Ptr, r: seq<Ptr>, post: seq<Ptr>)
      ensures (pre + l + [x]) + r + post == pre + (l + [x] + r) + post
    {
    }

    /** The branch of rim_tree_insert for a lesser key. */
    method InsertLesser(parent: Ptr, dir: Dir, node: Ptr, key: Key, data: int,
                        ghost t: Tree, ghost pre: seq<Ptr>, ghost post: seq<Ptr>)
      returns (status: Status, current: Ptr, ghost n: Ptr)
      requires parent in cells && parent !in Nodes(t) && Child(cells[parent], dir) == node
      requires t.Bin? && Rep(cells, node, t) && Distinct(t) && Listed(pre + InOrder(t) + post)
      requires Compare(keyType, key, t.key) < 0
      requires forall y :: y in pre || y in post ==> y in cells
      modifies this`cells, this`prev, this`next, this`min, this`max, this`count
      ensures ChangesOnly(old(cells), cells, Nodes(t) + {n}, parent, dir)
      ensures Rep(cells, Child(cells[parent], dir), Insert(keyType, t, key, data, n))
      ensures Listed(pre + InOrder(Insert(keyType, t, key, data, n)) + post)
      ensures Find(keyType, t, key).Nil? ==>
                && status == Okay && current == n && count == old(count) + 1
                && cells.Keys == old(cells).Keys + {n} && n !in old(cells)
      ensures Find(keyType, t, key).Bin? ==>
                && status == ErrExist && n in Nodes(t) && count == old(count) && cells.Keys == old(cells).Keys
      decreases t, 1
    {
      hide Balance, Compare, Memcmp;
      var isNew;
      InsideCells(cells, t);
      isNew, status, current, n := DescendLesser(node, key, data, t, pre, post);
      InsertedLeft(keyType, t, key, data, n);
      if !isNew {
        ghost var l := Insert(keyType, t.left, key, data, n);
        ghost var u := t.(left := l, ht := cells[node].height);
        assert Distinct(u) && parent !in Nodes(u) by {
          assert Nodes(u) == Nodes(t.(left := l));
        }
        BalanceIgnoresTopHeight(t.(left := Rebalance(l)), u.ht);
        BalanceLesserThenNode(parent, dir, node, u);
      }
    }

    /** A missing greater child is created, without a key, and linked into the list. */
    method EnsureGreater(node: Ptr, ghost t: Tree, ghost pre: seq<Ptr>, ghost post: seq<Ptr>)
      returns (isNew: bool)
      requires t.Bin? && Rep(cells, node, t) && Distinct(t) && Listed(pre + InOrder(t) + post)
      requires forall y :: y in pre || y in post ==> y in cells
      modifies this`cells, this`prev, this`next
      ensures isNew <==> t.right.Nil?
      ensures !isNew ==> cells == old(cells) && Listed(pre + InOrder(t.left) + [node] + InOrder(t.right) + post)
      ensures isNew ==>
                node in cells && var x := cells[node].greater;
                && x != NULL && x !in old(cells)
                && cells == old(cells)[node := old(cells)[node].(greater := x)][x := BLANK]
                && ListedBlank(pre + InOrder(t.left) + [node], x, post)
    {
      hide Compare, Balance;
      ghost var front := pre + InOrder(t.left) + [node];
      Lists(t, pre, post);
      InsideCells(cells, t);
      isNew := false;
      if cells[node].greater == NULL {
        var x := NewNode();
        cells := cells[node := cells[node].(greater := x)];
        isNew := true;
        if sorted {
          assert front + InOrder(t.right) == front && pre + InOrder(t) + post == front + post;
          FreshInList(front, x, post);
          LinkedSplit3(old(prev), old(next), pre + InOrder(t.left), node, post);
          LinkedFrame(old(prev), old(next), prev, next, NULL, front + post, NULL);
          LinkGreater(node, x, pre + InOrder(t.left), post);
        }
      }
    }

    /** The branch of rim_tree_insert for a greater key, down to the return of the recursive call. */
    method DescendGreater(node: Ptr, key: Key, data: int, ghost t: Tree, ghost pre: seq<Ptr>, ghost post: seq<Ptr>)
      returns (isNew: bool, status: Status, current: Ptr, ghost n: Ptr)
      requires t.Bin? && Rep(cells, node, t) && Distinct(t) && Listed(pre + InOrder(t) + post)
      requires Compare(keyType, key, t.key) > 0
      requires forall y :: y in pre || y in post ==> y in cells
      modifies this`cells, this`prev, this`next, this`min, this`max, this`count
      ensures isNew <==> t.right.Nil?
      ensures node in cells
      ensures var u := t.(right := Insert(keyType, t.right, key, data, n), ht := cells[node].height);
              Rep(cells, node, u) && (isNew ==> u.ht == t.ht)
      ensures forall y :: y in old(cells) && y !in Nodes(t) ==> y in cells && cells[y] == old(cells)[y]
      ensures Listed(pre + InOrder(Insert(keyType, t, key, data, n)) + post)
      ensures Find(keyType, t, key).Nil? ==>
                && status == Okay && current == n && count == old(count) + 1
                && cells.Keys == old(cells).Keys + {n} && n !in old(cells)
      ensures Find(keyType, t, key).Bin? ==>
                && status == ErrExist && n in Nodes(t) && count == old(count) && cells.Keys == old(cells).Keys
      decreases t, 0
    {
      hide Compare, Balance, Linked, Listed, ListedBlank, Find, Insert;
      ghost var c0 := cells;
      ghost var front := pre + InOrder(t.left) + [node];
      InsideCells(c0, t);
      isNew := EnsureGreater(node, t, pre, post);
      ghost var cm := cells;
      assert Ensured(c0, cm, node, t.right, Greater);
      status, current, n := InsertNode(node, Greater, cells[node].greater, key, data, t.right, front, post);
      InsertedRight(keyType, t, key, data, n);
      ghost var r := Insert(keyType, t.right, key, data, n);
      ListedAgainRight(pre, InOrder(t.left), node, InOrder(r), post);
      EnsuredRight(c0, cm, cells, t, n, r);
    }

    /** The branch of rim_tree_insert for a greater key. */
    method InsertGreater(parent: Ptr, dir: Dir, node: Ptr, key: Key, data: int,
                         ghost t: Tree, ghost pre: seq<Ptr>, ghost post: seq<Ptr>)
      returns (status: Status, current: Ptr, ghost n: Ptr)
      requires parent in cells && parent !in Nodes(t) && Child(cells[parent], dir) == node
      requires t.Bin? && Rep(cells, node, t) && Distinct(t) && Listed(pre + InOrder(t) + post)
      requires Compare(keyType, key, t.key) > 0
      requires forall y :: y in pre || y in post ==> y in cells
      modifies this`cells, this`prev, this`next, this`min, this`max, this`count
      ensures ChangesOnly(old(cells), cells, Nodes(t) + {n}, parent, dir)
      ensures Rep(cells, Child(cells[parent], dir), Insert(keyType, t, key, data, n))
      ensures Listed(pre + InOrder(Insert(keyType, t, key, data, n)) + post)
      ensures Find(keyType, t, key).Nil? ==>
                && status == Okay && current == n && count == old(count) + 1
                && cells.Keys == old(cells).Keys + {n} && n !in old(cells)
      ensures Find(keyType, t, key).Bin? ==>
                && status == ErrExist && n in Nodes(t) && count == old(count) && cells.Keys == old(cells).Keys
      decreases t, 1
    {
      hide Balance, Compare, Memcmp;
      var isNew;
      InsideCells(cells, t);
      isNew, status, current, n := DescendGreater(node, key, data, t, pre, post);
      InsertedRight(keyType, t, key, data, n);
      if !isNew {
        ghost var r := Insert(keyType, t.right, key, data, n);
        ghost var u := t.(right := r, ht := cells[node].height);
        assert Distinct(u) && parent !in Nodes(u) by {
          assert Nodes(u) == Nodes(t.(right := r));
        }
        BalanceIgnoresTopHeight(t.(right := Rebalance(r)), u.ht);
        BalanceGreaterThenNode(parent, dir, node, u);
      }
    }

    // ---------- deletion ----------

    /** rim_tree_node_delete: the memory of a node no longer in the list is given up. */
    method FreeNode(p: Ptr, ghost s: seq<Ptr>)
      requires Listed(s) && (sorted ==> p !in s)
      modifies this`cells, this`prev, this`next
      ensures cells == old(cells) - {p} && Listed(s)
    {
      cells := cells - {p};
      if sorted {
        LinkedFrame(prev, next, prev - {p}, next - {p}, NULL, s, NULL);
        prev := prev - {p};
        next := next - {p};
      }
    }

    /** A node leaves the list. */
    method Unlink(x: Ptr, ghost a: seq<Ptr>, ghost b: seq<Ptr>)
      requires sorted && Listed(a + [x] + b)
      modifies this`prev, this`next, this`min, this`max
      ensures Listed(a + b) && (a + b == [] ==> min == NULL && max == NULL)
      ensures x in prev && prev[x] == Last(a, NULL) && x in next && next[x] == First(b, NULL)
    {
      ProperParts(a, x, b);
      LinkedSplit3(prev, next, a, x, b);
      ThreadedWithout(prev, next, a, x, b);
      SpliceNodes(a, x, b);
      if prev[x] != NULL { next := next[prev[x] := next[x]]; } else { min := next[x]; }
      if next[x] != NULL { prev := prev[next[x] := prev[x]]; } else { max := prev[x]; }
      assert a != [] ==> (a + b)[0] == (a + [x] + b)[0];
      assert b != [] ==> (a + b)[|a + b| - 1] == (a + [x] + b)[|a + [x] + b| - 1];
    }

    /** The found node leaves its own place in the list and takes that of its successor. */
    method TakePlace(found: Ptr, succ: Ptr, ghost a: seq<Ptr>, ghost b: seq<Ptr>)
      requires sorted && Listed(a + [found] + ([succ] + b))
      modifies this`prev, this`next, this`min, this`max
      ensures Listed(a + [found] + b)
    {
      hide Linked;
      ghost var s := a + [found] + ([succ] + b);
      ProperParts(a, found, [succ] + b);
      assert succ in [succ] + b;
      assert a + ([succ] + b) == a + [succ] + b;
      assert s == (a + [found]) + [succ] + b;
      ProperParts(a + [found], succ, b);
      SpliceNodes(a + [found], succ, b);
      SpliceNodes(a, found, [succ] + b);
      Unlink(found, a, [succ] + b);
      PutInPlace(found, succ, a, b);
    }

    /** The list links of the successor become those of the found node, which is in no list. */
    method PutInPlace(found: Ptr, succ: Ptr, ghost a: seq<Ptr>, ghost b: seq<Ptr>)
      requires sorted && Listed(a + [succ] + b) && Proper(a + [succ] + b) && Proper(a + [found] + b) && found != succ
      requires found !in a && found !in b && found != NULL
      modifies this`prev, this`next, this`min, this`max
      ensures Listed(a + [found] + b)
    {
      ProperParts(a, succ, b);
      LinkedSplit3(prev, next, a, succ, b);
      ThreadedReplace(prev, next, a, succ, b, found);
      prev := prev[found := prev[succ]];
      next := next[found := next[succ]];
      if prev[succ] != NULL { next := next[prev[succ] := found]; } else { min := found; }
      if next[succ] != NULL { prev := prev[next[succ] := found]; } else { max := found; }
      assert b != [] ==> (a + [found] + b)[|a| + |b|] == b[|b| - 1] == (a + [succ] + b)[|a| + |b|];
    }

    /** The leaf of rim_tree_find_leaf_del gives its place in the list to the found node. */
    method MoveInList(found: Ptr, node: Ptr, ghost pre: seq<Ptr>, ghost r: seq<Ptr>, ghost post: seq<Ptr>)
      requires Listed(pre + [found] + ([node] + r) + post)
      modifies this`prev, this`next, this`min, this`max
      ensures Listed(pre + [found] + r + post) && (sorted ==> node !in pre + [found] + r + post)
    {
      assert pre + [found] + ([node] + r) + post == pre + [found] + ([node] + (r + post));
      assert pre + [found] + r + post == pre + [found] + (r + post);
      if sorted {
        assert pre + [found] + ([node] + (r + post)) == pre + [found] + [node] + (r + post);
        ProperParts(pre + [found], node, r + post);
        TakePlace(found, node, pre, r + post);
      }
    }

    /** Keys are exchanged, the data is copied and the leaf's greater branch takes its place. */
    method MovePayload(parent: Ptr, dir: Dir, node: Ptr, found: Ptr)
      requires node in cells && parent in cells && found in cells && node != parent && node != found
      modifies this`cells
      ensures cells.Keys == old(cells).Keys
      ensures var c1 := old(cells)[found := old(cells)[found].(key := old(cells)[node].key, data := old(cells)[node].data)];
              && cells[parent] == SetChild(c1[parent], dir, c1[node].greater)
              && forall y :: y in c1 && y != node && y != parent ==> cells[y] == c1[y]
    {
      var temp := cells[found].key;
      cells := cells[found := cells[found].(key := cells[node].key)];
      cells := cells[node := cells[node].(key := temp)];
      cells := cells[found := cells[found].(data := cells[node].data)];
      cells := cells[parent := SetChild(cells[parent], dir, cells[node].greater)];
    }

    /** The leaf of rim_tree_find_leaf_del: its payload and list place go to the found node. */
    method MoveLeast(parent: Ptr, dir: Dir, node: Ptr, found: Ptr,
                     ghost t: Tree, ghost pre: seq<Ptr>, ghost post: seq<Ptr>)
      requires t.Bin? && t.left.Nil? && Rep(cells, node, t) && Distinct(t)
      requires parent in cells && parent !in Nodes(t) && found in cells && found !in Nodes(t)
      requires Listed(pre + [found] + InOrder(t) + post)
      modifies this`cells, this`prev, this`next, this`min, this`max
      ensures ChangesOnly(old(cells)[found := old(cells)[found].(key := t.key, data := t.data)], cells, Nodes(t), parent, dir)
      ensures Rep(cells, Child(cells[parent], dir), t.right)
      ensures cells.Keys == old(cells).Keys - {node}
      ensures Listed(pre + [found] + InOrder(t.right) + post)
    {
      ghost var c0 := cells;
      RepAllocated(c0, c0[node].greater, t.right);
      if sorted {
        assert InOrder(t) == [node] + InOrder(t.right);
        MoveInList(found, node, pre, InOrder(t.right), post);
      }
      MovePayload(parent, dir, node, found);
      MovedLeast(c0, cells, parent, dir, found, t);
      FreeNode(node, pre + [found] + InOrder(t.right) + post);
    }

    lemma {:induction false} MovedLeast(c0: Cells, c1: Cells, parent: Ptr, dir: Dir, found: Ptr, t: Tree)
      requires t.Bin? && t.left.Nil? && Rep(c0, t.node, t) && Distinct(t)
      requires parent in c0 && parent !in Nodes(t) && found in c0 && found !in Nodes(t)
      requires c1.Keys == c0.Keys
      requires var c2 := c0[found := c0[found].(key := t.key, data := t.data)];
              && c1[parent] == SetChild(c2[parent], dir, c2[t.node].greater)
              && forall y :: y in c2 && y != t.node && y != parent ==> c1[y] == c2[y]
      ensures ChangesOnly(c0[found := c0[found].(key := t.key, data := t.data)], c1 - {t.node}, Nodes(t), parent, dir)
      ensures Rep(c1 - {t.node}, Child(c1[parent], dir), t.right)
    {
      RepAllocated(c0, c0[t.node].greater, t.right);
      RepFrame(c0, c1 - {t.node}, c0[t.node].greater, t.right);
    }

    lemma {:induction false} ListsBelow(pre: seq<Ptr>, x: Ptr, t: Tree, post: seq<Ptr>)
      requires t.Bin?
      ensures pre + [x] + InOrder(t) + post == pre + [x] + InOrder(t.left) + ([t.node] + (InOrder(t.right) + post))
    {
    }

    /** rim_tree_find_leaf_del. */
    method FindLeafDel(parent: Ptr, dir: Dir, node: Ptr, found: Ptr,
                       ghost t: Tree, ghost pre: seq<Ptr>, ghost post: seq<Ptr>)
      requires t.Bin? && Rep(cells, node, t) && Distinct(t)
      requires parent in cells && parent !in Nodes(t) && Child(cells[parent], dir) == node
      requires found in cells && found !in Nodes(t)
      requires Listed(pre + [found] + InOrder(t) + post)
      modifies this`cells, this`prev, this`next, this`min, this`max
      ensures ChangesOnly(Moved(old(cells), found, t), cells, Nodes(t), parent, dir)
      ensures cells.Keys == old(cells).Keys - {Least(t).node}
      ensures Rep(cells, Child(cells[parent], dir), DeleteLeast(t))
      ensures Listed(pre + [found] + InOrder(DeleteLeast(t)) + post)
      decreases t, 2
    {
      hide Compare, Balance;
      RepAllocated(cells, cells[node].lesser, t.left);
      if cells[node].lesser == NULL {
        MoveLeast(parent, dir, node, found, t, pre, post);
      } else {
        LeastBelow(parent, dir, node, found, t, pre, post);
      }
    }

    /** The branch of rim_tree_find_leaf_del that goes down: on the way back the lesser branch is
        balanced and then the node. */
    method LeastBelow(parent: Ptr, dir: Dir, node: Ptr, found: Ptr,
                      ghost t: Tree, ghost pre: seq<Ptr>, ghost post: seq<Ptr>)
      requires t.Bin? && t.left.Bin? && Rep(cells, node, t) && Distinct(t)
      requires parent in cells && parent !in Nodes(t) && Child(cells[parent], dir) == node
      requires found in cells && found !in Nodes(t)
      requires Listed(pre + [found] + InOrder(t) + post)
      modifies this`cells, this`prev, this`next, this`min, this`max
      ensures ChangesOnly(Moved(old(cells), found, t), cells, Nodes(t), parent, dir)
      ensures cells.Keys == old(cells).Keys - {Least(t).node}
      ensures Rep(cells, Child(cells[parent], dir), DeleteLeast(t))
      ensures Listed(pre + [found] + InOrder(DeleteLeast(t)) + post)
      decreases t, 1
    {
      hide Compare, Balance, DeleteLeast, Linked, Distinct, Least;
      ghost var l := DeleteLeast(t.left);
      DeleteLeastBelow(t);
      ghost var u := DescendLeast(node, found, t, pre, post);
      BalanceIgnoresTopHeight(t.(left := Rebalance(l)), u.ht);
      BalancedLeft(t, l);
      BalanceLesserThenNode(parent, dir, node, u);
    }

    /** The found cell with the payload of the least node of t. */
    ghost function Moved(c: Cells, found: Ptr, t: Tree): Cells
      requires t.Bin? && found in c
    {
      c[found := c[found].(key := Least(t).key, data := Least(t).data)]
    }

    /** The recursive call of rim_tree_find_leaf_del. */
    method DescendLeast(node: Ptr, found: Ptr, ghost t: Tree, ghost pre: seq<Ptr>, ghost post: seq<Ptr>)
      returns (ghost u: Tree)
      requires t.Bin? && t.left.Bin? && Rep(cells, node, t) && Distinct(t)
      requires found in cells && found !in Nodes(t)
      requires Listed(pre + [found] + InOrder(t) + post)
      modifies this`cells, this`prev, this`next, this`min, this`max
      ensures u.Bin? && u == t.(left := DeleteLeast(t.left), ht := u.ht)
      ensures Rep(cells, node, u) && Distinct(u) && Nodes(u) <= Nodes(t)
      ensures cells.Keys == old(cells).Keys - {Least(t).node}
      ensures forall y :: y in old(cells) && y !in Nodes(t) ==> y in cells && cells[y] == Moved(old(cells), found, t)[y]
      ensures Listed(pre + [found] + (InOrder(DeleteLeast(t.left)) + [node] + InOrder(t.right)) + post)
      decreases t, 0
    {
      ghost var c0 := cells;
      ghost var c1 := Moved(c0, found, t);
      ghost var rest := [node] + (InOrder(t.right) + post);
      RepAllocated(c0, node, t);
      RepFrame(c0, c1, node, t);
      DeleteLeastNodes(t.left);
      ghost var l := DeleteLeast(t.left);
      ListsBelow(pre, found, t, post);
      ListsBelow(pre, found, t.(left := l), post);
      FindLeafDel(node, Lesser, cells[node].lesser, found, t.left, pre, rest);
      RepNewLeft(c1, cells, t, Nodes(t.left), l);
      u := t.(left := l, ht := cells[node].height);
    }

    /** The found node has no greater branch: its lesser branch takes its place. */
    method DeleteBare(parent: Ptr, dir: Dir, node: Ptr, ghost t: Tree, ghost pre: seq<Ptr>, ghost post: seq<Ptr>)
      requires t.Bin? && t.right.Nil? && Rep(cells, node, t) && Distinct(t)
      requires parent in cells && parent !in Nodes(t)
      requires Listed(pre + InOrder(t) + post)
      modifies this`cells, this`prev, this`next, this`min, this`max
      ensures ChangesOnly(old(cells), cells, Nodes(t), parent, dir)
      ensures Rep(cells, Child(cells[parent], dir), t.left)
      ensures cells.Keys == old(cells).Keys - {node}
      ensures Listed(pre + InOrder(t.left) + post)
      ensures pre + InOrder(t.left) + post == [] && sorted ==> min == NULL && max == NULL
    {
      ghost var c0 := cells;
      RepAllocated(c0, c0[node].lesser, t.left);
      ghost var front := pre + InOrder(t.left);
      cells := cells[parent := SetChild(cells[parent], dir, cells[node].lesser)];
      assert pre + InOrder(t) + post == front + [node] + post;
      if sorted {
        ProperParts(front, node, post);
        Unlink(node, front, post);
      }
      FreeNode(node, front + post);
      RepFrame(c0, cells, c0[node].lesser, t.left);
    }

    /** The found node has a greater branch: the successor's payload moves up. */
    method DeleteMoving(node: Ptr, ghost t: Tree, ghost pre: seq<Ptr>, ghost post: seq<Ptr>) returns (ghost u: Tree)
      requires t.Bin? && t.right.Bin? && Rep(cells, node, t) && Distinct(t)
      requires Listed(pre + InOrder(t) + post)
      modifies this`cells, this`prev, this`next, this`min, this`max
      ensures var m := Least(t.right);
              && u.Bin? && u == t.(key := m.key, data := m.data, right := DeleteLeast(t.right), ht := u.ht)
              && cells.Keys == old(cells).Keys - {m.node}
      ensures Rep(cells, node, u) && Distinct(u) && Nodes(u) <= Nodes(t)
      ensures forall y :: y in old(cells) && y !in Nodes(t) ==> y in cells && cells[y] == old(cells)[y]
      ensures Listed(pre + (InOrder(t.left) + [node] + InOrder(DeleteLeast(t.right))) + post)
    {
      ghost var c0, m, front := cells, Least(t.right), pre + InOrder(t.left);
      Lists(t, pre, post);
      DeleteLeastNodes(t.right);
      RepNewPayload(c0, t, m.key, m.data);
      ListedAgainRight(pre, InOrder(t.left), node, InOrder(DeleteLeast(t.right)), post);
      FindLeafDel(node, Greater, cells[node].greater, node, t.right, front, post);
      ghost var v := t.(key := m.key, data := m.data);
      RepNewRight(c0[node := c0[node].(key := m.key, data := m.data)], cells, v, Nodes(t.right), DeleteLeast(t.right));
      u := v.(right := DeleteLeast(t.right), ht := cells[node].height);
    }

    /** The found node of rim_tree_delete. */
    method DeleteFound(parent: Ptr, dir: Dir, node: Ptr, ghost t: Tree, ghost pre: seq<Ptr>, ghost post: seq<Ptr>)
      requires t.Bin? && Rep(cells, node, t) && Distinct(t)
      requires parent in cells && parent !in Nodes(t) && Child(cells[parent], dir) == node
      requires Listed(pre + InOrder(t) + post)
      modifies this`cells, this`prev, this`next, this`min, this`max
      ensures ChangesOnly(old(cells), cells, Nodes(t), parent, dir)
      ensures Rep(cells, Child(cells[parent], dir), Delete(keyType, t, t.key))
      ensures cells.Keys == old(cells).Keys - {Gone(keyType, t, t.key)}
      ensures Listed(pre + InOrder(Delete(keyType, t, t.key)) + post)
      ensures pre + InOrder(Delete(keyType, t, t.key)) + post == [] && sorted ==> min == NULL && max == NULL
    {
      hide Compare, Balance;
      CompareDecides(keyType, t.key, t.key);
      DeleteHereOrder(keyType, t, t.key);
      RepAllocated(cells, cells[node].greater, t.right);
      if cells[node].greater == NULL {
        DeleteBare(parent, dir, node, t, pre, post);
      } else {
        ghost var u := DeleteMoving(node, t, pre, post);
        ghost var m := Least(t.right);
        ghost var r := Rebalance(DeleteLeast(t.right));
        BalanceIgnoresTopHeight(t.(key := m.key, data := m.data, right := r), u.ht);
        BalanceGreaterThenNode(parent, dir, node, u);
      }
    }

    /** The recursive call of rim_tree_delete for a lesser key. */
    method DeleteBelowLesser(node: Ptr, key: Key, ghost t: Tree, ghost pre: seq<Ptr>, ghost post: seq<Ptr>)
      returns (status: Status, res: int, ghost u: Tree)
      requires t.Bin? && t.left.Bin? && Rep(cells, node, t) && Distinct(t) && Compare(keyType, key, t.key) < 0
      requires Listed(pre + InOrder(t) + post) && count >= Size(t)
      modifies this`cells, this`prev, this`next, this`min, this`max, this`count
      ensures u.Bin? && u == t.(left := Delete(keyType, t.left, key), ht := u.ht)
      ensures Rep(cells, node, u) && Distinct(u) && Nodes(u) <= Nodes(t)
      ensures forall y :: y in old(cells) && y !in Nodes(t) ==> y in cells && cells[y] == old(cells)[y]
      ensures Listed(pre + InOrder(Delete(keyType, t, key)) + post)
      ensures InOrder(Delete(keyType, t, key)) != []
      ensures Find(keyType, t.left, key).Bin? ==>
                && status == Okay && res == Find(keyType, t.left, key).data && count == old(count) - 1
                && cells.Keys == old(cells).Keys - {Gone(keyType, t.left, key)}
      ensures Find(keyType, t.left, key).Nil? ==>
                status == ErrExist && count == old(count) && cells.Keys == old(cells).Keys
      decreases t, 0
    {
      ghost var c0 := cells;
      ghost var rest := [node] + (InOrder(t.right) + post);
      Lists(t, pre, post);
      status, res := DeleteNode(node, Lesser, cells[node].lesser, key, t.left, pre, rest);
      DeleteNodes(keyType, t.left, key);
      ghost var l := Delete(keyType, t.left, key);
      RepNewLeft(c0, cells, t, Nodes(t.left), l);
      u := t.(left := l, ht := cells[node].height);
      DeleteLeftOrder(keyType, t, key);
      ListedAgain(pre, InOrder(l), node, InOrder(t.right), post);
    }

    /** The recursive call of rim_tree_delete for a greater key. */
    method DeleteBelowGreater(node: Ptr, key: Key, ghost t: Tree, ghost pre: seq<Ptr>, ghost post: seq<Ptr>)
      returns (status: Status, res: int, ghost u: Tree)
      requires t.Bin? && t.right.Bin? && Rep(cells, node, t) && Distinct(t) && Compare(keyType, key, t.key) > 0
      requires Listed(pre + InOrder(t) + post) && count >= Size(t)
      modifies this`cells, this`prev, this`next, this`min, this`max, this`count
      ensures u.Bin? && u == t.(right := Delete(keyType, t.right, key), ht := u.ht)
      ensures Rep(cells, node, u) && Distinct(u) && Nodes(u) <= Nodes(t)
      ensures forall y :: y in old(cells) && y !in Nodes(t) ==> y in cells && cells[y] == old(cells)[y]
      ensures Listed(pre + InOrder(Delete(keyType, t, key)) + post)
      ensures InOrder(Delete(keyType, t, key)) != []
      ensures Find(keyType, t.right, key).Bin? ==>
                && status == Okay && res == Find(keyType, t.right, key).data && count == old(count) - 1
                && cells.Keys == old(cells).Keys - {Gone(keyType, t.right, key)}
      ensures Find(keyType, t.right, key).Nil? ==>
                status == ErrExist && count == old(count) && cells.Keys == old(cells).Keys
      decreases t, 0
    {
      ghost var c0 := cells;
      ghost var front := pre + InOrder(t.left) + [node];
      Lists(t, pre, post);
      status, res := DeleteNode(node, Greater, cells[node].greater, key, t.right, front, post);
      DeleteNodes(keyType, t.right, key);
      ghost var r := Delete(keyType, t.right, key);
      RepNewRight(c0, cells, t, Nodes(t.right), r);
      u := t.(right := r, ht := cells[node].height);
      DeleteRightOrder(keyType, t, key);
      ListedAgainRight(pre, InOrder(t.left), node, InOrder(r), post);
    }

    /** The branch of rim_tree_delete for a lesser key. */
    method DeleteLesser(parent: Ptr, dir: Dir, node: Ptr, key: Key, ghost t: Tree, ghost pre: seq<Ptr>, ghost post: seq<Ptr>)
      returns (status: Status, res: int)
      requires t.Bin? && t.left.Bin? && Rep(cells, node, t) && Distinct(t) && Compare(keyType, key, t.key) < 0
      requires parent in cells && parent !in Nodes(t) && Child(cells[parent], dir) == node
      requires Listed(pre + InOrder(t) + post) && count >= Size(t)
      modifies this`cells, this`prev, this`next, this`min, this`max, this`count
      ensures ChangesOnly(old(cells), cells, Nodes(t), parent, dir)
      ensures Rep(cells, Child(cells[parent], dir), Delete(keyType, t, key))
      ensures Listed(pre + InOrder(Delete(keyType, t, key)) + post)
      ensures InOrder(Delete(keyType, t, key)) != []
      ensures Find(keyType, t.left, key).Bin? ==>
                && status == Okay && res == Find(keyType, t.left, key).data && count == old(count) - 1
                && cells.Keys == old(cells).Keys - {Gone(keyType, t.left, key)}
      ensures Find(keyType, t.left, key).Nil? ==>
                status == ErrExist && count == old(count) && cells.Keys == old(cells).Keys
      decreases t, 1
    {
      hide Compare, Balance;
      ghost var u;
      status, res, u := DeleteBelowLesser(node, key, t, pre, post);
      BalanceIgnoresTopHeight(t.(left := Rebalance(u.left)), u.ht);
      BalanceLesserThenNode(parent, dir, node, u);
    }

    /** The branch of rim_tree_delete for a greater key. */
    method DeleteGreater(parent: Ptr, dir: Dir, node: Ptr, key: Key, ghost t: Tree, ghost pre: seq<Ptr>, ghost post: seq<Ptr>)
      returns (status: Status, res: int)
      requires t.Bin? && t.right.Bin? && Rep(cells, node, t) && Distinct(t) && Compare(keyType, key, t.key) > 0
      requires parent in cells && parent !in Nodes(t) && Child(cells[parent], dir) == node
      requires Listed(pre + InOrder(t) + post) && count >= Size(t)
      modifies this`cells, this`prev, this`next, this`min, this`max, this`count
      ensures ChangesOnly(old(cells), cells, Nodes(t), parent, dir)
      ensures Rep(cells, Child(cells[parent], dir), Delete(keyType, t, key))
      ensures Listed(pre + InOrder(Delete(keyType, t, key)) + post)
      ensures InOrder(Delete(keyType, t, key)) != []
      ensures Find(keyType, t.right, key).Bin? ==>
                && status == Okay && res == Find(keyType, t.right, key).data && count == old(count) - 1
                && cells.Keys == old(cells).Keys - {Gone(keyType, t.right, key)}
      ensures Find(keyType, t.right, key).Nil? ==>
                status == ErrExist && count == old(count) && cells.Keys == old(cells).Keys
      decreases t, 1
    {
      hide Compare, Balance;
      ghost var u;
      status, res, u := DeleteBelowGreater(node, key, t, pre, post);
      BalanceIgnoresTopHeight(t.(right := Rebalance(u.right)), u.ht);
      BalanceGreaterThenNode(parent, dir, node, u);
    }

    /** rim_tree_delete. */
    method DeleteNode(parent: Ptr, dir: Dir, node: Ptr, key: Key, ghost t: Tree, ghost pre: seq<Ptr>, ghost post: seq<Ptr>)
      returns (status: Status, res: int)
      requires t.Bin? && Rep(cells, node, t) && Distinct(t)
      requires parent in cells && parent !in Nodes(t) && Child(cells[parent], dir) == node
      requires Listed(pre + InOrder(t) + post) && count >= Size(t)
      modifies this`cells, this`prev, this`next, this`min, this`max, this`count
      ensures ChangesOnly(old(cells), cells, Nodes(t), parent, dir)
      ensures Rep(cells, Child(cells[parent], dir), Delete(keyType, t, key))
      ensures Listed(pre + InOrder(Delete(keyType, t, key)) + post)
      ensures pre + InOrder(Delete(keyType, t, key)) + post == [] && sorted ==> min == NULL && max == NULL
      ensures Find(keyType, t, key).Bin? ==>
                && status == Okay && res == Find(keyType, t, key).data && count == old(count) - 1
                && cells.Keys == old(cells).Keys - {Gone(keyType, t, key)}
      ensures Find(keyType, t, key).Nil? ==>
                status == ErrExist && count == old(count) && cells.Keys == old(cells).Keys
      decreases t, 2
    {
      hide Balance, Compare;
      status, res := ErrExist, 0;
      RepAllocated(cells, cells[node].lesser, t.left);
      RepAllocated(cells, cells[node].greater, t.right);
      var cmp := Compare(keyType, key, cells[node].key);
      if cmp == 0 {
        CompareDecides(keyType, key, t.key);
        res := cells[node].data;
        DeleteFound(parent, dir, node, t, pre, post);
        status := Okay;
        count := count - 1;
      } else if cmp < 0 && cells[node].lesser != NULL {
        status, res := DeleteLesser(parent, dir, node, key, t, pre, post);
      } else if cmp > 0 && cells[node].greater != NULL {
        status, res := DeleteGreater(parent, dir, node, key, t, pre, post);
      } else {
        assert Find(keyType, if cmp < 0 then t.left else t.right, key).Nil?;
      }
    }

    // ---------- searches ----------

    /** rim_tree_search_f. */
    method Search(key: Key) returns (status: Status, current: Ptr)
      requires Valid()
      ensures status == if key in Contents() then Okay else ErrExist
      ensures status == Okay ==>
                && current in cells && cells[current].key == key
                && cells[current].data == Contents()[key]
    {
      FindMeans(keyType, shape, key);
      var p := cells[tree].lesser;
      if shape.Bin? { InsideCells(cells, shape); }
      if p != NULL && cells[p].keyPresent {
        ghost var sub := shape;
        while p != NULL
          invariant Rep(cells, p, sub)
          invariant Find(keyType, sub, key) == Find(keyType, shape, key)
          decreases sub
        {
          var cmp := Compare(keyType, key, cells[p].key);
          if cmp == 0 { return Okay, p; }
          if cmp < 0 {
            p, sub := cells[p].lesser, sub.left;
          } else {
            p, sub := cells[p].greater, sub.right;
          }
        }
      }
      return ErrExist, NULL;
    }

    /** current is the node at place r of the order. */
    ghost predicate IsAt(current: Ptr, r: int)
      reads this`shape
    {
      0 <= r < |InOrder(shape)| && InOrder(shape)[r] == current
    }

    /** rim_tree_search_lesser_equal_f. */
    method SearchLesserEqual(equal: bool, key: Key) returns (status: Status, current: Ptr)
      requires Valid()
      ensures status == ErrExist ==> NoneBelowProbe(keyType, equal, Items(shape), key)
      ensures status == Okay ==>
                exists r :: LastBelow(keyType, equal, Items(shape), key, r) && IsAt(current, r)
    {
      var prevLesser := NULL;
      var p := cells[tree].lesser;
      if shape.Bin? { InsideCells(cells, shape); }
      if p != NULL && cells[p].keyPresent {
        ghost var sub, d := shape, Sides([], [], [], []);
        WithinWhole(shape);
        while p != NULL
          invariant Rep(cells, p, sub) && Narrowed(keyType, equal, key, shape, d, sub)
          invariant prevLesser == Last(d.a, NULL)
          decreases sub
        {
          var cmp := Compare(keyType, key, cells[p].key);
          CompareDecides(keyType, key, sub.key);
          LessStrict(keyType, key, sub.key);
          if cmp == 0 {
            if !equal {
              cmp := -1;
            } else {
              NarrowEqual(keyType, key, shape, d, sub);
              return Okay, p;
            }
          }
          if cmp < 0 {
            NarrowLeft(keyType, equal, key, shape, d, sub);
            d := GoLeft(d, sub);
            p, sub := cells[p].lesser, sub.left;
          } else {
            NarrowRight(keyType, equal, key, shape, d, sub);
            d := GoRight(d, sub);
            prevLesser := p;
            p, sub := cells[p].greater, sub.right;
          }
        }
        NarrowDone(keyType, equal, key, shape, d);
        assert d.a != [] ==> IsAt(prevLesser, |d.a| - 1);
        OrderHasNoNull();
      }
      if prevLesser != NULL {
        return Okay, prevLesser;
      }
      return ErrExist, NULL;
    }

    lemma {:induction false} OrderHasNoNull()
      requires Valid()
      ensures NULL !in InOrder(shape)
    {
      InOrderNodes(shape);
      if shape.Bin? { InsideCells(cells, shape); }
      assert NULL !in SetOf(InOrder(shape));
    }

    /** rim_tree_search_greater_equal_f. */
    method SearchGreaterEqual(equal: bool, key: Key) returns (status: Status, current: Ptr)
      requires Valid()
      ensures status == ErrExist ==> NoneBeyondProbe(keyType, equal, Items(shape), key)
      ensures status == Okay ==>
                exists r :: FirstBeyond(keyType, equal, Items(shape), key, r) && IsAt(current, r)
    {
      var prevGreater := NULL;
      var p := cells[tree].lesser;
      if shape.Bin? { InsideCells(cells, shape); }
      if p != NULL && cells[p].keyPresent {
        ghost var sub, d := shape, Sides([], [], [], []);
        WithinWhole(shape);
        while p != NULL
          invariant Rep(cells, p, sub) && Raised(keyType, equal, key, shape, d, sub)
          invariant prevGreater == First(d.b, NULL)
          decreases sub
        {
          var cmp := Compare(keyType, key, cells[p].key);
          CompareDecides(keyType, key, sub.key);
          LessStrict(keyType, key, sub.key);
          if cmp == 0 {
            if !equal {
              cmp := 1;
            } else {
              RaiseEqual(keyType, key, shape, d, sub);
              return Okay, p;
            }
          }
          if cmp < 0 {
            RaiseLeft(keyType, equal, key, shape, d, sub);
            d := GoLeft(d, sub);
            prevGreater := p;
            p, sub := cells[p].lesser, sub.left;
          } else {
            RaiseRight(keyType, equal, key, shape, d, sub);
            d := GoRight(d, sub);
            p, sub := cells[p].greater, sub.right;
          }
        }
        RaiseDone(keyType, equal, key, shape, d);
        assert d.b != [] ==> IsAt(prevGreater, |d.a|);
        OrderHasNoNull();
      }
      if prevGreater != NULL {
        return Okay, prevGreater;
      }
      return ErrExist, NULL;
    }

    /** In a sorted tree, what a strict lesser search for a present key returns is the lesser
        list link of that key's node. */
    lemma {:induction false} LesserLinkIsSearch(m: nat, status: Status, current: Ptr)
      requires Valid() && sorted && m < |Items(shape)|
      requires status == ErrExist ==> NoneBelowProbe(keyType, false, Items(shape), Items(shape)[m].key)
      requires status == Okay ==>
                 exists r :: LastBelow(keyType, false, Items(shape), Items(shape)[m].key, r) && IsAt(current, r)
      ensures |InOrder(shape)| == |Items(shape)|
      ensures var n := InOrder(shape)[m]; n in prev && prev[n] == if status == Okay then current else NULL
    {
      var s, q := Items(shape), InOrder(shape);
      InOrderNodes(shape);
      LinksAt(prev, next, q, m);
      var r := 0;
      if status == Okay { r :| LastBelow(keyType, false, s, s[m].key, r) && IsAt(current, r); }
      StrictLesserAt(keyType, s, m, status == Okay, r);
    }

    /** The same for strict greater searches and the greater link. */
    lemma {:induction false} GreaterLinkIsSearch(m: nat, status: Status, current: Ptr)
      requires Valid() && sorted && m < |Items(shape)|
      requires status == ErrExist ==> NoneBeyondProbe(keyType, false, Items(shape), Items(shape)[m].key)
      requires status == Okay ==>
                 exists r :: FirstBeyond(keyType, false, Items(shape), Items(shape)[m].key, r) && IsAt(current, r)
      ensures |InOrder(shape)| == |Items(shape)|
      ensures var n := InOrder(shape)[m]; n in next && next[n] == if status == Okay then current else NULL
    {
      var s, q := Items(shape), InOrder(shape);
      InOrderNodes(shape);
      LinksAt(prev, next, q, m);
      var r := 0;
      if status == Okay { r :| FirstBeyond(keyType, false, s, s[m].key, r) && IsAt(current, r); }
      StrictGreaterAt(keyType, s, m, status == Okay, r);
    }

    /** rim_tree_min_f: the end of the list, or the end of the lesser links. */
    method Min() returns (status: Status, current: Ptr)
      requires Valid()
      ensures status == if count == 0 then ErrExist else Okay
      ensures status == Okay ==> IsAt(current, 0)
    {
      InOrderNodes(shape);
      if sorted {
        if count == 0 { return ErrExist, NULL; }
        return Okay, min;
      }
      var cur := cells[tree].lesser;
      if count == 0 { return ErrExist, NULL; }
      cur := LesserEnd(cur, shape);
      return Okay, cur;
    }

    method LesserEnd(root: Ptr, ghost t: Tree) returns (cur: Ptr)
      requires t.Bin? && Rep(cells, root, t)
      ensures InOrder(t) != [] && cur == InOrder(t)[0]
    {
      cur := root;
      InsideCells(cells, t);
      ghost var sub, rest := t, [];
      while cells[cur].lesser != NULL
        invariant sub.Bin? && Rep(cells, cur, sub) && InOrder(t) == InOrder(sub) + rest
        decreases sub
      {
        Around([], InOrder(sub.left), sub.node, InOrder(sub.right), rest);
        rest := [cur] + InOrder(sub.right) + rest;
        cur, sub := cells[cur].lesser, sub.left;
      }
      RepAllocated(cells, cells[cur].lesser, sub.left);
    }

    method GreaterEnd(root: Ptr, ghost t: Tree) returns (cur: Ptr)
      requires t.Bin? && Rep(cells, root, t)
      ensures InOrder(t) != [] && cur == InOrder(t)[|InOrder(t)| - 1]
    {
      hide Linked;
      cur := root;
      InsideCells(cells, t);
      ghost var sub, rest := t, [];
      while cells[cur].greater != NULL
        invariant sub.Bin? && Rep(cells, cur, sub) && InOrder(t) == rest + InOrder(sub)
        decreases sub
      {
        Around(rest, InOrder(sub.left), sub.node, InOrder(sub.right), []);
        rest := rest + InOrder(sub.left) + [cur];
        cur, sub := cells[cur].greater, sub.right;
      }
      RepAllocated(cells, cells[cur].greater, sub.right);
    }

    /** rim_tree_max_f. */
    method Max() returns (status: Status, current: Ptr)
      requires Valid()
      ensures status == if count == 0 then ErrExist else Okay
      ensures status == Okay ==> IsAt(current, |InOrder(shape)| - 1)
    {
      InOrderNodes(shape);
      if sorted {
        if count == 0 { return ErrExist, NULL; }
        return Okay, max;
      }
      var cur := cells[tree].lesser;
      if count == 0 { return ErrExist, NULL; }
      cur := GreaterEnd(cur, shape);
      return Okay, cur;
    }

    /** rim_tree_purge_f: the least key is deleted until none is left. */
    method Purge()
      requires Valid()
      modifies this
      ensures Valid() && Contents() == map[] && count == 0
      ensures cells.Keys == {tree, cells[tree].lesser}
    {
      while true
        invariant Valid()
        decreases count
      {
        var status, current := Min();
        if status != Okay { break; }
        RepItems(cells, cells[tree].lesser, shape);
        MapOfAt(keyType, Items(shape), 0);
        var _, _ := DeleteKey(cells[current].key);
      }
    }

    /** rim_tree_bal: how many nodes have children whose stored heights differ by more than one. */
    method CountUnbalanced(node: Ptr, ghost t: Tree) returns (res: nat)
      requires t.Bin? && Rep(cells, node, t)
      ensures res == Unbalanced(t)
      decreases t
    {
      res := 0;
      RepAllocated(cells, cells[node].lesser, t.left);
      RepAllocated(cells, cells[node].greater, t.right);
      if cells[node].lesser != NULL {
        var l := CountUnbalanced(cells[node].lesser, t.left);
        res := res + l;
      }
      if cells[node].greater != NULL {
        var r := CountUnbalanced(cells[node].greater, t.right);
        res := res + r;
      }
      var f: int := HeightAt(cells, cells[node].lesser) - HeightAt(cells, cells[node].greater);
      if f < -1 || f > 1 { res := res + 1; }
    }
  }
}
