/**
 The tree of tree.c as a value: the shape, payloads and stored heights that the linked nodes
 represent, and the rebalancing steps on that value. The linked nodes themselves, and the
 procedures that change them in place, are in Tree.dfy.
 */
module TreeShape {
  import opened Bytes
  import opened Common
  import opened Addresses
  import opened TreeKeys

  datatype Tree = Nil | Bin(left: Tree, node: Ptr, key: Key, data: int, ht: nat, right: Tree)

  /** The number of nodes. */
  function Size(t: Tree): nat {
    if t.Nil? then 0 else Size(t.left) + 1 + Size(t.right)
  }

  /** The true height. */
  function Height(t: Tree): nat {
    if t.Nil? then 0 else 1 + Max(Height(t.left), Height(t.right))
  }

  /** The height a parent reads: the stored one, or 0 for a missing child. */
  function H(t: Tree): nat {
    if t.Nil? then 0 else t.ht
  }

  function Nodes(t: Tree): set<Ptr> {
    if t.Nil? then {} else Nodes(t.left) + {t.node} + Nodes(t.right)
  }

  /** The nodes in key order, which is the order of the threaded list. */
  function InOrder(t: Tree): seq<Ptr> {
    if t.Nil? then [] else InOrder(t.left) + [t.node] + InOrder(t.right)
  }

  ghost predicate Distinct(t: Tree) {
    t.Bin? ==>
      && t.node !in Nodes(t.left) && t.node !in Nodes(t.right)
      && Nodes(t.left) !! Nodes(t.right)
      && Distinct(t.left) && Distinct(t.right)
  }

  // ---------- balance and stored heights ----------

  /** Every subtree is balanced by its true heights. */
  predicate Avl(t: Tree) {
    t.Bin? ==> Avl(t.left) && Avl(t.right) && -1 <= Height(t.left) - Height(t.right) <= 1
  }

  /** Every stored height is the true one. */
  predicate Exact(t: Tree) {
    t.Bin? ==> Exact(t.left) && Exact(t.right) && t.ht == Height(t)
  }

  /** The invariant between operations: balanced, and only the top stored height may be stale. */
  predicate Sound(t: Tree) {
    Avl(t) && (t.Bin? ==> Exact(t.left) && Exact(t.right))
  }

  function Fib(n: nat): nat {
    if n < 2 then n else Fib(n - 2) + Fib(n - 1)
  }

  lemma {:induction false} FibMonotone(m: nat, n: nat)
    requires m <= n
    ensures Fib(m) <= Fib(n)
    decreases n - m
  {
    if m < n { FibMonotone(m + 1, n); }
  }

  /** The sparsest balanced tree of a height is a Fibonacci tree. */
  lemma {:induction false} AvlSizeAtLeastFib(t: Tree)
    requires Avl(t)
    ensures Size(t) + 1 >= Fib(Height(t) + 2)
  {
    if t.Bin? {
      AvlSizeAtLeastFib(t.left);
      AvlSizeAtLeastFib(t.right);
      var h := Height(t);
      FibMonotone(h, Height(t.left) + 2);
      FibMonotone(h, Height(t.right) + 2);
    } else {
      assert Fib(2) == 1;
    }
  }

  const COUNT_LIMIT: nat := 0x8000_0000_0000_0000

  /** Ten steps of the recurrence at once. */
  lemma {:induction false} FibTen(n: nat)
    ensures Fib(n + 10) == 34 * Fib(n) + 55 * Fib(n + 1)
    ensures Fib(n + 11) == 55 * Fib(n) + 89 * Fib(n + 1)
  {
    var a, b := Fib(n), Fib(n + 1);
    assert Fib(n + 2) == a + b;
    assert Fib(n + 3) == a + 2 * b;
    assert Fib(n + 4) == 2 * a + 3 * b;
    assert Fib(n + 5) == 3 * a + 5 * b;
    assert Fib(n + 6) == 5 * a + 8 * b;
    assert Fib(n + 7) == 8 * a + 13 * b;
    assert Fib(n + 8) == 13 * a + 21 * b;
    assert Fib(n + 9) == 21 * a + 34 * b;
  }

  lemma {:induction false} Fib93()
    ensures Fib(93) > COUNT_LIMIT
  {
    assert Fib(3) == 2 && Fib(4) == 3;
    FibTen(3); FibTen(13); FibTen(23); FibTen(33); FibTen(43);
    FibTen(53); FibTen(63); FibTen(73); FibTen(83);
  }

  /** A 64-bit count keeps every height below 91, so the 7-bit stored height never overflows. */
  lemma {:induction false} HeightFitsSevenBits(t: Tree)
    requires Avl(t) && Size(t) < COUNT_LIMIT
    ensures Height(t) <= 90
  {
    AvlSizeAtLeastFib(t);
    if Height(t) > 90 {
      FibMonotone(93, Height(t) + 2);
      Fib93();
    }
  }

  // ---------- the rebalancing steps ----------

  /** The value a 7-bit field keeps. */
  function SevenBits(h: nat): nat {
    h % 128
  }

  /** rim_tree_height: the stored height recomputed from what the children store. */
  function Reheight(t: Tree): Tree
    requires t.Bin?
  {
    t.(ht := SevenBits(1 + Max(H(t.left), H(t.right))))
  }

  /** rim_tree_rotate_right: the new top keeps the height it had below. */
  function RotateRight(t: Tree): Tree
    requires t.Bin? && t.left.Bin?
  {
    t.left.(right := Reheight(t.(left := t.left.right)))
  }

  /** rim_tree_rotate_left. */
  function RotateLeft(t: Tree): Tree
    requires t.Bin? && t.right.Bin?
  {
    t.right.(left := Reheight(t.(right := t.right.left)))
  }

  /** rim_tree_balance, on the subtree being balanced. */
  function Balance(t: Tree): Tree
    requires t.Bin?
  {
    var factor := H(t.left) - H(t.right);
    if factor >= 2 then
      var l := if H(t.left.right) > H(t.left.left) then RotateLeft(t.left) else t.left;
      RotateRight(t.(left := l))
    else if factor <= -2 then
      var r := if H(t.right.left) > H(t.right.right) then RotateRight(t.right) else t.right;
      RotateLeft(t.(right := r))
    else
      Reheight(t)
  }

  /** Balancing a child that may be missing. */
  function Rebalance(t: Tree): Tree {
    if t.Nil? then t else Balance(t)
  }

  /** rim_tree_insert of a key not present; n is the node allocated for it. */
  function Insert(kt: KeyType, t: Tree, k: Key, d: int, n: Ptr): Tree {
    if t.Nil? then Bin(Nil, n, k, d, 1, Nil)
    else
      var c := Compare(kt, k, t.key);
      if c == 0 then t
      else if c < 0 then
        var l := Insert(kt, t.left, k, d, n);
        if t.left.Nil? then t.(left := l) else Balance(t.(left := Rebalance(l)))
      else
        var r := Insert(kt, t.right, k, d, n);
        if t.right.Nil? then t.(right := r) else Balance(t.(right := Rebalance(r)))
  }

  /** The subtree at the end of the lesser links. */
  function Least(t: Tree): Tree
    requires t.Bin?
    ensures Least(t).Bin? && Least(t).left.Nil?
  {
    if t.left.Nil? then t else Least(t.left)
  }

  /** rim_tree_find_leaf_del, on the greater branch of the found node. */
  function DeleteLeast(t: Tree): Tree
    requires t.Bin?
  {
    if t.left.Nil? then t.right
    else Balance(t.(left := Rebalance(DeleteLeast(t.left))))
  }

  /** rim_tree_delete. */
  function Delete(kt: KeyType, t: Tree, k: Key): Tree
    requires t.Bin?
  {
    var c := Compare(kt, k, t.key);
    if c == 0 then
      if t.right.Nil? then t.left
      else
        var m := Least(t.right);
        Balance(t.(key := m.key, data := m.data, right := Rebalance(DeleteLeast(t.right))))
    else if c < 0 && t.left.Bin? then
      Balance(t.(left := Rebalance(Delete(kt, t.left, k))))
    else if c > 0 && t.right.Bin? then
      Balance(t.(right := Rebalance(Delete(kt, t.right, k))))
    else t
  }

  /** A stale top height is never read by the step that recomputes it. */
  lemma {:induction false} BalanceIgnoresTopHeight(t: Tree, h: nat)
    requires t.Bin?
    ensures Balance(t.(ht := h)) == Balance(t)
  {
  }

  // ---------- what one balancing step restores ----------

  /** Balancing changes neither the nodes, nor their order, nor the size. */
  lemma {:induction false} BalanceKeepsOrder(t: Tree)
    requires t.Bin?
    ensures Balance(t).Bin?
    ensures InOrder(Balance(t)) == InOrder(t)
    ensures Nodes(Balance(t)) == Nodes(t)
    ensures Size(Balance(t)) == Size(t)
    ensures Distinct(t) ==> Distinct(Balance(t))
  {
    var factor := H(t.left) - H(t.right);
    if factor >= 2 {
      if H(t.left.right) > H(t.left.left) {
        RotateLeftKeepsOrder(t.left);
        RotateRightKeepsOrder(t.(left := RotateLeft(t.left)));
      } else {
        RotateRightKeepsOrder(t);
      }
    } else if factor <= -2 {
      if H(t.right.left) > H(t.right.right) {
        RotateRightKeepsOrder(t.right);
        RotateLeftKeepsOrder(t.(right := RotateRight(t.right)));
      } else {
        RotateLeftKeepsOrder(t);
      }
    }
  }

  lemma {:induction false} RotateRightKeepsOrder(t: Tree)
    requires t.Bin? && t.left.Bin?
    ensures InOrder(RotateRight(t)) == InOrder(t)
    ensures Nodes(RotateRight(t)) == Nodes(t)
    ensures Size(RotateRight(t)) == Size(t)
    ensures Distinct(t) ==> Distinct(RotateRight(t))
  {
    var r := RotateRight(t);
    assert InOrder(r.right) == InOrder(t.left.right) + [t.node] + InOrder(t.right);
    assert Nodes(r.right) == Nodes(t.left.right) + {t.node} + Nodes(t.right);
    assert Nodes(t.left) == Nodes(t.left.left) + {t.left.node} + Nodes(t.left.right);
    if Distinct(t) {
      assert Distinct(t.left);
      assert Distinct(r.right);
    }
  }

  lemma {:induction false} RotateLeftKeepsOrder(t: Tree)
    requires t.Bin? && t.right.Bin?
    ensures InOrder(RotateLeft(t)) == InOrder(t)
    ensures Nodes(RotateLeft(t)) == Nodes(t)
    ensures Size(RotateLeft(t)) == Size(t)
    ensures Distinct(t) ==> Distinct(RotateLeft(t))
  {
    var l := RotateLeft(t);
    assert InOrder(l.left) == InOrder(t.left) + [t.node] + InOrder(t.right.left);
    assert Nodes(l.left) == Nodes(t.left) + {t.node} + Nodes(t.right.left);
    assert Nodes(t.right) == Nodes(t.right.left) + {t.right.node} + Nodes(t.right.right);
    if Distinct(t) {
      assert Distinct(t.right);
      assert Distinct(l.left);
    }
  }

  /** With exact children whose heights differ by at most 2, one step restores balance, leaves at
      most the new top's height stale, and lowers the height by at most one. */
  lemma {:induction false} BalanceRestores(t: Tree)
    requires t.Bin? && Avl(t.left) && Avl(t.right) && Exact(t.left) && Exact(t.right)
    requires -2 <= Height(t.left) - Height(t.right) <= 2
    requires Height(t.left) <= 100 && Height(t.right) <= 100
    ensures Sound(Balance(t)) && Balance(t).Bin?
    ensures Height(t) - 1 <= Height(Balance(t)) <= Height(t)
    ensures -1 <= Height(t.left) - Height(t.right) <= 1 ==>
              Exact(Balance(t)) && Height(Balance(t)) == Height(t) && Balance(t) == Reheight(t)
  {
    ExactH(t.left); ExactH(t.right);
    var factor := H(t.left) - H(t.right);
    if factor == 2 {
      BalanceRightCase(t);
    } else if factor == -2 {
      BalanceLeftCase(t);
    }
  }

  lemma {:induction false} ExactH(t: Tree)
    requires Exact(t)
    ensures H(t) == Height(t)
    ensures t.Bin? ==> H(t.left) == Height(t.left) && H(t.right) == Height(t.right)
  {
    if t.Bin? {
      assert Exact(t.left) && Exact(t.right);
    }
  }

  lemma {:induction false} ReheightMakesExact(t: Tree)
    requires t.Bin? && Exact(t.left) && Exact(t.right)
    requires Height(t.left) <= 110 && Height(t.right) <= 110
    ensures Exact(Reheight(t)) && Height(Reheight(t)) == Height(t)
    ensures Height(t) == 1 + Max(Height(t.left), Height(t.right))
  {
    ExactH(t.left); ExactH(t.right);
  }

  lemma {:induction false} BalanceRightCase(t: Tree)
    requires t.Bin? && Avl(t.left) && Avl(t.right) && Exact(t.left) && Exact(t.right)
    requires Height(t.left) - Height(t.right) == 2 && Height(t.left) <= 100
    requires H(t.left) == Height(t.left) && H(t.right) == Height(t.right)
    ensures Sound(Balance(t))
    ensures Height(t) - 1 <= Height(Balance(t)) <= Height(t)
  {
    ExactH(t.left.left); ExactH(t.left.right);
    if H(t.left.right) > H(t.left.left) { DoubleRight(t); } else { SingleRight(t); }
  }

  lemma {:induction false} DoubleRight(t: Tree)
    requires t.Bin? && t.left.Bin? && Avl(t.left) && Avl(t.right) && Exact(t.left) && Exact(t.right)
    requires Height(t.left) - Height(t.right) == 2 && Height(t.left) <= 100
    requires H(t.left) - H(t.right) >= 2 && H(t.left.right) > H(t.left.left)
    requires Height(t.left.right) > Height(t.left.left)
    ensures Sound(Balance(t)) && Height(Balance(t)) == Height(t) - 1
  {
    var l := t.left;
    var m := l.right;
    ExactH(m);
    var low, high := l.(right := m.left), t.(left := m.right);
    ReheightMakesExact(low); ReheightMakesExact(high);
    assert Balance(t) == m.(left := Reheight(low), right := Reheight(high));
  }

  lemma {:induction false} SingleRight(t: Tree)
    requires t.Bin? && t.left.Bin? && Avl(t.left) && Avl(t.right) && Exact(t.left) && Exact(t.right)
    requires Height(t.left) - Height(t.right) == 2 && Height(t.left) <= 100
    requires H(t.left) - H(t.right) >= 2 && H(t.left.right) <= H(t.left.left)
    requires Height(t.left.right) <= Height(t.left.left)
    ensures Sound(Balance(t)) && Height(t) - 1 <= Height(Balance(t)) <= Height(t)
  {
    var l := t.left;
    var high := t.(left := l.right);
    ReheightMakesExact(high);
    assert Balance(t) == l.(right := Reheight(high));
  }

  lemma {:induction false} BalanceLeftCase(t: Tree)
    requires t.Bin? && Avl(t.left) && Avl(t.right) && Exact(t.left) && Exact(t.right)
    requires Height(t.right) - Height(t.left) == 2 && Height(t.right) <= 100
    requires H(t.left) == Height(t.left) && H(t.right) == Height(t.right)
    ensures Sound(Balance(t))
    ensures Height(t) - 1 <= Height(Balance(t)) <= Height(t)
  {
    ExactH(t.right.left); ExactH(t.right.right);
    if H(t.right.left) > H(t.right.right) { DoubleLeft(t); } else { SingleLeft(t); }
  }

  lemma {:induction false} DoubleLeft(t: Tree)
    requires t.Bin? && t.right.Bin? && Avl(t.left) && Avl(t.right) && Exact(t.left) && Exact(t.right)
    requires Height(t.right) - Height(t.left) == 2 && Height(t.right) <= 100
    requires H(t.left) - H(t.right) <= -2 && H(t.right.left) > H(t.right.right)
    requires Height(t.right.left) > Height(t.right.right)
    ensures Sound(Balance(t)) && Height(Balance(t)) == Height(t) - 1
  {
    var r := t.right;
    var m := r.left;
    ExactH(m);
    var high, low := r.(left := m.right), t.(right := m.left);
    ReheightMakesExact(low); ReheightMakesExact(high);
    assert Balance(t) == m.(left := Reheight(low), right := Reheight(high));
  }

  lemma {:induction false} SingleLeft(t: Tree)
    requires t.Bin? && t.right.Bin? && Avl(t.left) && Avl(t.right) && Exact(t.left) && Exact(t.right)
    requires Height(t.right) - Height(t.left) == 2 && Height(t.right) <= 100
    requires H(t.left) - H(t.right) <= -2 && H(t.right.left) <= H(t.right.right)
    requires Height(t.right.left) <= Height(t.right.right)
    ensures Sound(Balance(t)) && Height(t) - 1 <= Height(Balance(t)) <= Height(t)
  {
    var r := t.right;
    var low := t.(right := r.left);
    ReheightMakesExact(low);
    assert Balance(t) == r.(left := Reheight(low));
  }

  /** Balancing a subtree whose top height alone may be stale makes every height exact. */
  lemma {:induction false} RebalanceMakesExact(t: Tree)
    requires Sound(t) && Height(t) <= 100
    ensures Avl(Rebalance(t)) && Exact(Rebalance(t)) && Height(Rebalance(t)) == Height(t)
  {
    if t.Bin? { BalanceRestores(t); }
  }

  lemma {:induction false} LeftChanged(t: Tree, l: Tree)
    requires t.Bin? && t.left.Bin? && Sound(t) && Sound(l) && Height(t) <= 90
    requires Height(t.left) - 1 <= Height(l) <= Height(t.left) + 1
    ensures var u := Balance(t.(left := Rebalance(l)));
            && Sound(u) && u.Bin? && Height(t) - 1 <= Height(u) <= Height(t) + 1
            && (Height(l) <= Height(t.left) ==> Height(u) <= Height(t))
            && (Height(l) >= Height(t.left) ==> Height(u) >= Height(t))
  {
    RebalanceMakesExact(l);
    BalanceRestores(t.(left := Rebalance(l)));
  }

  lemma {:induction false} RightChanged(t: Tree, r: Tree)
    requires t.Bin? && t.right.Bin? && Sound(t) && Sound(r) && Height(t) <= 90
    requires Height(t.right) - 1 <= Height(r) <= Height(t.right) + 1
    ensures var u := Balance(t.(right := Rebalance(r)));
            && Sound(u) && u.Bin? && Height(t) - 1 <= Height(u) <= Height(t) + 1
            && (Height(r) <= Height(t.right) ==> Height(u) <= Height(t))
            && (Height(r) >= Height(t.right) ==> Height(u) >= Height(t))
  {
    RebalanceMakesExact(r);
    BalanceRestores(t.(right := Rebalance(r)));
  }

  // ---------- the operations keep the invariant ----------

  lemma {:induction false} InsertKeepsSound(kt: KeyType, t: Tree, k: Key, d: int, n: Ptr)
    requires Sound(t) && Size(t) < COUNT_LIMIT
    ensures Sound(Insert(kt, t, k, d, n)) && Insert(kt, t, k, d, n).Bin?
    ensures Height(t) <= Height(Insert(kt, t, k, d, n)) <= Height(t) + 1
  {
    hide Balance, Compare;
    HeightFitsSevenBits(t);
    if t.Bin? {
      var c := Compare(kt, k, t.key);
      if c < 0 {
        InsertKeepsSound(kt, t.left, k, d, n);
        var l := Insert(kt, t.left, k, d, n);
        if t.left.Bin? { LeftChanged(t, l); }
      } else if c > 0 {
        InsertKeepsSound(kt, t.right, k, d, n);
        var r := Insert(kt, t.right, k, d, n);
        if t.right.Bin? { RightChanged(t, r); }
      }
    }
  }

  lemma DeleteLeastBelow(t: Tree)
    requires t.Bin? && t.left.Bin?
    ensures DeleteLeast(t) == Balance(t.(left := Rebalance(DeleteLeast(t.left)))) && Least(t) == Least(t.left)
  {
  }

  lemma {:induction false} DeleteLeastKeepsSound(t: Tree)
    requires t.Bin? && Sound(t) && Size(t) < COUNT_LIMIT
    ensures Sound(DeleteLeast(t))
    ensures Height(t) - 1 <= Height(DeleteLeast(t)) <= Height(t)
  {
    hide Balance;
    HeightFitsSevenBits(t);
    if t.left.Bin? {
      DeleteLeastKeepsSound(t.left);
      LeftChanged(t, DeleteLeast(t.left));
    }
  }

  lemma {:induction false} DeleteFoundKeepsSound(t: Tree)
    requires t.Bin? && t.right.Bin? && Sound(t) && Size(t) < COUNT_LIMIT
    ensures var m := Least(t.right);
            var u := Balance(t.(key := m.key, data := m.data, right := Rebalance(DeleteLeast(t.right))));
            Sound(u) && Height(t) - 1 <= Height(u) <= Height(t)
  {
    HeightFitsSevenBits(t);
    DeleteLeastKeepsSound(t.right);
    var r := DeleteLeast(t.right);
    var m := Least(t.right);
    RebalanceMakesExact(r);
    BalanceRestores(t.(key := m.key, data := m.data, right := Rebalance(r)));
  }

  lemma {:induction false} DeleteKeepsSound(kt: KeyType, t: Tree, k: Key)
    requires t.Bin? && Sound(t) && Size(t) < COUNT_LIMIT
    ensures Sound(Delete(kt, t, k))
    ensures Height(t) - 1 <= Height(Delete(kt, t, k)) <= Height(t)
  {
    hide Balance, Compare;
    HeightFitsSevenBits(t);
    var c := Compare(kt, k, t.key);
    if c == 0 {
      if t.right.Bin? { DeleteFoundKeepsSound(t); }
    } else if c < 0 && t.left.Bin? {
      DeleteKeepsSound(kt, t.left, k);
      var l := Delete(kt, t.left, k);
      LeftChanged(t, l);
    } else if c > 0 && t.right.Bin? {
      DeleteKeepsSound(kt, t.right, k);
      var r := Delete(kt, t.right, k);
      RightChanged(t, r);
    }
  }

  // ---------- which nodes an operation keeps ----------

  /** rim_tree_search: the subtree whose top holds the key, or Nil. */
  function Find(kt: KeyType, t: Tree, k: Key): Tree {
    if t.Nil? then Nil
    else
      var c := Compare(kt, k, t.key);
      if c == 0 then t
      else if c < 0 then Find(kt, t.left, k)
      else Find(kt, t.right, k)
  }

  /** The node freed by a deletion: the found one, or its successor when there is a greater branch. */
  function Gone(kt: KeyType, t: Tree, k: Key): Ptr {
    var f := Find(kt, t, k);
    if f.Nil? then NULL
    else if f.right.Nil? then f.node
    else Least(f.right).node
  }

  ghost function SetOf(s: seq<Ptr>): set<Ptr> {
    set x | x in s
  }

  lemma {:induction false} InOrderNodes(t: Tree)
    ensures SetOf(InOrder(t)) == Nodes(t)
    ensures Distinct(t) <==> NoDup(InOrder(t))
    ensures |InOrder(t)| == Size(t)
  {
    if t.Bin? {
      InOrderNodes(t.left);
      InOrderNodes(t.right);
      var a, b := InOrder(t.left), InOrder(t.right);
      JoinNodes(a, t.node, b);
    }
  }

  lemma {:induction false} JoinNodes(a: seq<Ptr>, x: Ptr, b: seq<Ptr>)
    ensures SetOf(a + [x] + b) == SetOf(a) + {x} + SetOf(b)
    ensures NoDup(a + [x] + b) <==>
              NoDup(a) && NoDup(b) && x !in SetOf(a) && x !in SetOf(b) && SetOf(a) !! SetOf(b)
  {
    var s := a + [x] + b;
    assert forall i :: 0 <= i < |a| ==> s[i] == a[i];
    assert s[|a|] == x;
    assert forall i :: 0 <= i < |b| ==> s[|a| + 1 + i] == b[i];
    if NoDup(s) {
      forall i, j | 0 <= i < j < |b| ensures b[i] != b[j] {
        assert s[|a| + 1 + i] != s[|a| + 1 + j];
      }
      forall i, j | 0 <= i < |a| && 0 <= j < |b| ensures a[i] != b[j] {
        assert s[i] != s[|a| + 1 + j];
      }
    }
    if NoDup(a) && NoDup(b) && x !in SetOf(a) && x !in SetOf(b) && SetOf(a) !! SetOf(b) {
      forall i, j | 0 <= i < j < |s| ensures s[i] != s[j] {
        assert i < |a| ==> s[i] in SetOf(a);
        assert i > |a| ==> s[i] == b[i - |a| - 1];
        assert j > |a| ==> s[j] == b[j - |a| - 1] && s[j] in SetOf(b);
      }
    }
  }

  lemma {:induction false} BalancedLeft(t: Tree, l: Tree)
    requires t.Bin?
    ensures InOrder(Balance(t.(left := Rebalance(l)))) == InOrder(l) + [t.node] + InOrder(t.right)
  {
    if l.Bin? { BalanceKeepsOrder(l); }
    BalanceKeepsOrder(t.(left := Rebalance(l)));
  }

  lemma {:induction false} BalancedRight(t: Tree, r: Tree)
    requires t.Bin?
    ensures InOrder(Balance(t.(right := Rebalance(r)))) == InOrder(t.left) + [t.node] + InOrder(r)
  {
    if r.Bin? { BalanceKeepsOrder(r); }
    BalanceKeepsOrder(t.(right := Rebalance(r)));
  }

  lemma {:induction false} Regroup(a: seq<Ptr>, b: seq<Ptr>, c: seq<Ptr>)
    ensures a + b + c == a + (b + c)
  {
  }

  lemma {:induction false} InsertLeftOrder(kt: KeyType, t: Tree, k: Key, d: int, n: Ptr)
    requires t.Bin? && Compare(kt, k, t.key) < 0
    ensures InOrder(Insert(kt, t, k, d, n)) == InOrder(Insert(kt, t.left, k, d, n)) + ([t.node] + InOrder(t.right))
    ensures InOrder(t) == InOrder(t.left) + ([t.node] + InOrder(t.right))
  {
    hide Balance, Compare;
    if t.left.Bin? { BalancedLeft(t, Insert(kt, t.left, k, d, n)); }
  }

  lemma {:induction false} InsertRightOrder(kt: KeyType, t: Tree, k: Key, d: int, n: Ptr)
    requires t.Bin? && Compare(kt, k, t.key) > 0
    ensures InOrder(Insert(kt, t, k, d, n)) == InOrder(t.left) + [t.node] + InOrder(Insert(kt, t.right, k, d, n))
  {
    hide Balance, Compare;
    if t.right.Bin? { BalancedRight(t, Insert(kt, t.right, k, d, n)); }
  }

  /** An insertion puts the new node in one place and moves no other node. */
  lemma {:induction false} InsertSplices(kt: KeyType, t: Tree, k: Key, d: int, n: Ptr)
    returns (p: seq<Ptr>, q: seq<Ptr>)
    ensures InOrder(t) == p + q
    ensures InOrder(Insert(kt, t, k, d, n)) == if Find(kt, t, k).Bin? then p + q else p + [n] + q
  {
    p, q := InOrder(t), [];
    if t.Bin? {
      var c := Compare(kt, k, t.key);
      if c < 0 {
        var q';
        p, q' := InsertSplices(kt, t.left, k, d, n);
        InsertLeftOrder(kt, t, k, d, n);
        var rest := [t.node] + InOrder(t.right);
        q := q' + rest;
        Regroup(p, q', rest);
        Regroup(p + [n], q', rest);
      } else if c > 0 {
        var p';
        p', q := InsertSplices(kt, t.right, k, d, n);
        InsertRightOrder(kt, t, k, d, n);
        var rest := InOrder(t.left) + [t.node];
        p := rest + p';
        Regroup(rest, p', q);
        Regroup(rest, p' + [n], q);
        Regroup(rest, p', [n]);
      }
    }
  }

  lemma {:induction false} DeleteLeastDrops(t: Tree)
    requires t.Bin?
    ensures InOrder(t) == [Least(t).node] + InOrder(DeleteLeast(t))
  {
    if t.left.Bin? {
      DeleteLeastDrops(t.left);
      BalancedLeft(t, DeleteLeast(t.left));
      var rest := [t.node] + InOrder(t.right);
      assert InOrder(t) == InOrder(t.left) + rest;
      assert InOrder(DeleteLeast(t)) == InOrder(DeleteLeast(t.left)) + rest;
    }
  }

  lemma {:induction false} DeleteHereOrder(kt: KeyType, t: Tree, k: Key)
    requires t.Bin? && Compare(kt, k, t.key) == 0
    ensures t.right.Nil? ==>
              InOrder(Delete(kt, t, k)) == InOrder(t.left) && InOrder(t) == InOrder(t.left) + [t.node]
    ensures t.right.Bin? ==>
              && InOrder(Delete(kt, t, k)) == InOrder(t.left) + [t.node] + InOrder(DeleteLeast(t.right))
              && InOrder(t) == InOrder(t.left) + [t.node] + [Least(t.right).node] + InOrder(DeleteLeast(t.right))
  {
    if t.right.Bin? {
      var m := Least(t.right);
      BalancedRight(t.(key := m.key, data := m.data), DeleteLeast(t.right));
      DeleteLeastDrops(t.right);
    }
  }

  lemma {:induction false} DeleteLeftOrder(kt: KeyType, t: Tree, k: Key)
    requires t.Bin? && t.left.Bin? && Compare(kt, k, t.key) < 0
    ensures InOrder(Delete(kt, t, k)) == InOrder(Delete(kt, t.left, k)) + ([t.node] + InOrder(t.right))
    ensures InOrder(t) == InOrder(t.left) + ([t.node] + InOrder(t.right))
  {
    BalancedLeft(t, Delete(kt, t.left, k));
  }

  lemma {:induction false} DeleteRightOrder(kt: KeyType, t: Tree, k: Key)
    requires t.Bin? && t.right.Bin? && Compare(kt, k, t.key) > 0
    ensures InOrder(Delete(kt, t, k)) == InOrder(t.left) + [t.node] + InOrder(Delete(kt, t.right, k))
  {
    BalancedRight(t, Delete(kt, t.right, k));
  }

  /** A deletion takes exactly one node out of the order: the found one when it has no greater
      branch, and otherwise its successor, whose payload has moved. */
  lemma {:induction false} DeleteSplices(kt: KeyType, t: Tree, k: Key)
    returns (p: seq<Ptr>, q: seq<Ptr>)
    requires t.Bin?
    ensures var u := InOrder(Delete(kt, t, k));
            if Find(kt, t, k).Nil? then u == InOrder(t)
            else InOrder(t) == p + [Gone(kt, t, k)] + q && u == p + q
  {
    p, q := [], [];
    var c := Compare(kt, k, t.key);
    if c == 0 {
      DeleteHereOrder(kt, t, k);
      p := InOrder(t.left);
      if t.right.Bin? {
        p, q := p + [t.node], InOrder(DeleteLeast(t.right));
      } else {
        assert p + [] == p && p + [t.node] + [] == p + [t.node];
      }
    } else if c < 0 && t.left.Bin? {
      var q';
      p, q' := DeleteSplices(kt, t.left, k);
      DeleteLeftOrder(kt, t, k);
      var rest := [t.node] + InOrder(t.right);
      q := q' + rest;
      Regroup(p, q', rest);
      Regroup(p + [Gone(kt, t, k)], q', rest);
    } else if c > 0 && t.right.Bin? {
      var p';
      p', q := DeleteSplices(kt, t.right, k);
      DeleteRightOrder(kt, t, k);
      var rest := InOrder(t.left) + [t.node];
      p := rest + p';
      Regroup(rest, p', q);
      Regroup(rest, p' + [Gone(kt, t, k)], q);
      Regroup(rest, p', [Gone(kt, t, k)]);
    } else {
      assert Find(kt, if c < 0 then t.left else t.right, k).Nil?;
    }
  }

  /** An insertion adds exactly the new node, unless the key is present. */
  lemma {:induction false} InsertNodes(kt: KeyType, t: Tree, k: Key, d: int, n: Ptr)
    requires Distinct(t) && (Find(kt, t, k).Nil? ==> n !in Nodes(t))
    ensures var u, found := Insert(kt, t, k, d, n), Find(kt, t, k).Bin?;
            && Distinct(u)
            && Nodes(u) == (if found then Nodes(t) else Nodes(t) + {n})
            && Size(u) == (if found then Size(t) else Size(t) + 1)
  {
    var u := Insert(kt, t, k, d, n);
    var p, q := InsertSplices(kt, t, k, d, n);
    InOrderNodes(t);
    InOrderNodes(u);
    SpliceNodes(p, n, q);
  }

  lemma {:induction false} SpliceNodes(p: seq<Ptr>, n: Ptr, q: seq<Ptr>)
    ensures SetOf(p + [n] + q) == SetOf(p + q) + {n}
    ensures NoDup(p + [n] + q) <==> NoDup(p + q) && n !in SetOf(p + q)
  {
    var s, u := p + q, p + [n] + q;
    assert forall i :: 0 <= i < |s| ==> s[i] == if i < |p| then u[i] else u[i + 1];
    assert forall i :: 0 <= i < |u| ==> u[i] == if i < |p| then s[i] else if i == |p| then n else s[i - 1];
    assert u[|p|] == n;
    if NoDup(u) {
      forall i, j | 0 <= i < j < |s| ensures s[i] != s[j] {
        assert u[if i < |p| then i else i + 1] != u[if j < |p| then j else j + 1];
      }
      forall i | 0 <= i < |s| ensures s[i] != n {
        if i < |p| { assert u[i] != u[|p|]; } else { assert u[|p|] != u[i + 1]; }
      }
    }
    if NoDup(s) && n !in SetOf(s) {
      forall i, j | 0 <= i < j < |u| ensures u[i] != u[j] {
        assert i != |p| ==> u[i] in SetOf(s);
        assert j != |p| ==> u[j] in SetOf(s);
        if i != |p| && j != |p| {
          assert s[if i < |p| then i else i - 1] != s[if j < |p| then j else j - 1];
        }
      }
    }
  }

  /** A deletion removes exactly one node, unless the key is absent. */
  lemma {:induction false} DeleteNodes(kt: KeyType, t: Tree, k: Key)
    requires t.Bin? && Distinct(t)
    ensures var u, found, g := Delete(kt, t, k), Find(kt, t, k).Bin?, Gone(kt, t, k);
            && Distinct(u)
            && Nodes(u) == (if found then Nodes(t) - {g} else Nodes(t))
            && Size(u) == (if found then Size(t) - 1 else Size(t))
            && (found ==> g in Nodes(t))
  {
    var u := Delete(kt, t, k);
    var p, q := DeleteSplices(kt, t, k);
    InOrderNodes(t);
    InOrderNodes(u);
    if Find(kt, t, k).Bin? { SpliceNodes(p, Gone(kt, t, k), q); }
  }

  lemma {:induction false} HeadNodes(x: Ptr, s: seq<Ptr>)
    ensures SetOf([x] + s) == {x} + SetOf(s)
    ensures NoDup([x] + s) ==> NoDup(s) && x !in SetOf(s)
  {
    assert [] + [x] + s == [x] + s && [] + s == s;
    SpliceNodes([], x, s);
  }

  lemma {:induction false} DeleteLeastNodes(t: Tree)
    requires t.Bin? && Distinct(t)
    ensures Distinct(DeleteLeast(t)) && Least(t).node in Nodes(t)
    ensures Nodes(DeleteLeast(t)) == Nodes(t) - {Least(t).node}
  {
    DeleteLeastDrops(t);
    InOrderNodes(t);
    InOrderNodes(DeleteLeast(t));
    HeadNodes(Least(t).node, InOrder(DeleteLeast(t)));
  }

  lemma {:induction false} RebalanceKeepsNodes(t: Tree)
    ensures Nodes(Rebalance(t)) == Nodes(t)
    ensures InOrder(Rebalance(t)) == InOrder(t)
    ensures Distinct(t) ==> Distinct(Rebalance(t))
  {
    if t.Bin? { BalanceKeepsOrder(t); }
  }

  /** rim_tree_bal's count, from the stored heights. */
  function Unbalanced(t: Tree): nat {
    if t.Nil? then 0
    else
      Unbalanced(t.left) + Unbalanced(t.right)
      + if -1 <= H(t.left) - H(t.right) <= 1 then 0 else 1
  }

  /** The library's own balance check finds nothing between operations. */
  lemma {:induction false} SoundHasNoneUnbalanced(t: Tree)
    requires Sound(t)
    ensures Unbalanced(t) == 0
  {
    if t.Bin? {
      ExactH(t.left); ExactH(t.right);
      SoundHasNoneUnbalanced(t.left);
      SoundHasNoneUnbalanced(t.right);
    }
  }
}
