/** The sorted list threaded through the nodes, kept by two link fields per node. */
module TreeThread {
  import opened Addresses
  import opened Common
  import opened TreeShape

  type Links = map<Ptr, Ptr>

  function First(s: seq<Ptr>, r: Ptr): Ptr {
    if s == [] then r else s[0]
  }

  function Last(s: seq<Ptr>, l: Ptr): Ptr {
    if s == [] then l else s[|s| - 1]
  }

  /** s is a stretch of the list whose lesser end points to l and whose greater end points to r. */
  ghost predicate Linked(prev: Links, next: Links, l: Ptr, s: seq<Ptr>, r: Ptr)
    decreases |s|
  {
    s != [] ==>
      && s[0] in prev && s[0] in next
      && prev[s[0]] == l && next[s[0]] == First(s[1..], r)
      && Linked(prev, next, s[0], s[1..], r)
  }

  /** The whole list: greater links run through s in order, lesser links backwards. */
  ghost predicate Threaded(prev: Links, next: Links, s: seq<Ptr>) {
    Linked(prev, next, NULL, s, NULL)
  }

  /** Distinct addresses, none of them NULL. */
  ghost predicate Proper(s: seq<Ptr>) {
    NoDup(s) && NULL !in s
  }

  lemma {:induction false} LinkedSplit(prev: Links, next: Links, l: Ptr, a: seq<Ptr>, b: seq<Ptr>, r: Ptr)
    ensures Linked(prev, next, l, a + b, r) <==>
              Linked(prev, next, l, a, First(b, r)) && Linked(prev, next, Last(a, l), b, r)
    decreases |a|
  {
    if a == [] {
      assert a + b == b;
    } else {
      assert (a + b)[1..] == a[1..] + b;
      LinkedSplit(prev, next, a[0], a[1..], b, r);
    }
  }

  lemma {:induction false} LinkedSplit3(prev: Links, next: Links, a: seq<Ptr>, x: Ptr, b: seq<Ptr>)
    ensures Threaded(prev, next, a + [x] + b) <==>
              && Linked(prev, next, NULL, a, x)
              && x in prev && x in next && prev[x] == Last(a, NULL) && next[x] == First(b, NULL)
              && Linked(prev, next, x, b, NULL)
  {
    assert a + [x] + b == a + ([x] + b) && ([x] + b)[1..] == b;
    LinkedSplit(prev, next, NULL, a, [x] + b, NULL);
  }

  /** Linking depends only on the links of its own nodes. */
  lemma {:induction false} LinkedFrame(p0: Links, q0: Links, p1: Links, q1: Links, l: Ptr, s: seq<Ptr>, r: Ptr)
    requires Linked(p0, q0, l, s, r)
    requires forall x :: x in s && x in p0 ==> x in p1 && p1[x] == p0[x]
    requires forall x :: x in s && x in q0 ==> x in q1 && q1[x] == q0[x]
    ensures Linked(p1, q1, l, s, r)
    decreases |s|
  {
    if s != [] {
      assert s[0] in s;
      LinkedFrame(p0, q0, p1, q1, s[0], s[1..], r);
    }
  }

  lemma {:induction false} NoDupTail(s: seq<Ptr>)
    requires NoDup(s) && s != []
    ensures NoDup(s[1..]) && s[0] !in s[1..]
  {
    assert s == [s[0]] + s[1..];
    HeadNodes(s[0], s[1..]);
    assert s[0] !in SetOf(s[1..]);
  }

  /** The greater end of a stretch is pointed elsewhere. */
  lemma {:induction false} LinkedRetargetRight(p: Links, q: Links, l: Ptr, s: seq<Ptr>, r: Ptr, r': Ptr)
    requires Linked(p, q, l, s, r) && NoDup(s)
    ensures Linked(p, if s == [] then q else q[Last(s, l) := r'], l, s, r')
    decreases |s|
  {
    if s != [] {
      NoDupTail(s);
      LinkedRetargetRight(p, q, s[0], s[1..], r, r');
    }
  }

  /** The lesser end of a stretch is pointed elsewhere. */
  lemma {:induction false} LinkedRetargetLeft(p: Links, q: Links, l: Ptr, s: seq<Ptr>, r: Ptr, l': Ptr)
    requires Linked(p, q, l, s, r) && NoDup(s)
    ensures Linked(if s == [] then p else p[First(s, r) := l'], q, l', s, r)
  {
    if s != [] {
      NoDupTail(s);
      LinkedFrame(p, q, p[s[0] := l'], q, s[0], s[1..], r);
    }
  }

  lemma {:induction false} ProperParts(a: seq<Ptr>, x: Ptr, b: seq<Ptr>)
    requires Proper(a + [x] + b)
    ensures Proper(a) && Proper(b) && x != NULL && x !in a && x !in b
    ensures forall y :: y in a ==> y !in b
    ensures a != [] ==> Last(a, NULL) != NULL && Last(a, NULL) in a
    ensures b != [] ==> First(b, NULL) != NULL && First(b, NULL) in b
  {
    JoinNodes(a, x, b);
    assert forall y :: y in a || y == x || y in b ==> y in a + [x] + b;
    assert SetOf(a) !! SetOf(b);
    forall y | y in a ensures y !in b { assert y in SetOf(a); }
    assert x !in SetOf(a) && x !in SetOf(b);
  }

  /** A fresh node n linked in just before x. */
  lemma {:induction false} ThreadedBefore(prev: Links, next: Links, a: seq<Ptr>, x: Ptr, b: seq<Ptr>, n: Ptr)
    requires Threaded(prev, next, a + [x] + b) && Proper(a + [n] + ([x] + b))
    requires x in prev && x in next
    ensures var next1 := if prev[x] != NULL then next[prev[x] := n] else next;
            Threaded(prev[n := prev[x]][x := n], next1[n := x], a + [n] + ([x] + b))
  {
    ProperParts(a, n, [x] + b);
    assert x in [x] + b && [] + [x] + b == [x] + b;
    ProperParts([], x, b);
    LinkedSplit3(prev, next, a, x, b);
    var next1 := if prev[x] != NULL then next[prev[x] := n] else next;
    var p, q := prev[n := prev[x]][x := n], next1[n := x];
    LinkedRetargetRight(prev, next, NULL, a, x, n);
    LinkedFrame(prev, next1, p, q, NULL, a, n);
    LinkedFrame(prev, next, p, q, x, b, NULL);
    LinkedSplit(p, q, n, [x], b, NULL);
    LinkedSplit3(p, q, a, n, [x] + b);
  }

  /** A fresh node n linked in just after x. */
  lemma {:induction false} ThreadedAfter(prev: Links, next: Links, a: seq<Ptr>, x: Ptr, b: seq<Ptr>, n: Ptr)
    requires Threaded(prev, next, a + [x] + b) && Proper(a + [x] + [n] + b)
    requires x in prev && x in next
    ensures var prev1 := if next[x] != NULL then prev[next[x] := n] else prev;
            Threaded(prev1[n := x], next[n := next[x]][x := n], a + [x] + [n] + b)
  {
    ProperParts(a + [x], n, b);
    assert x in a + [x] && a + [x] + [] == a + [x];
    ProperParts(a, x, []);
    LinkedSplit3(prev, next, a, x, b);
    var prev1 := if next[x] != NULL then prev[next[x] := n] else prev;
    var p, q := prev1[n := x], next[n := next[x]][x := n];
    LinkedRetargetLeft(prev, next, x, b, NULL, n);
    LinkedFrame(prev1, next, p, q, n, b, NULL);
    LinkedFrame(prev, next, p, q, NULL, a, x);
    LinkedSplit(p, q, NULL, a, [x], n);
    LinkedSplit3(p, q, a + [x], n, b);
  }

  /** x taken out: its neighbours are joined. */
  lemma {:induction false} ThreadedWithout(prev: Links, next: Links, a: seq<Ptr>, x: Ptr, b: seq<Ptr>)
    requires Threaded(prev, next, a + [x] + b) && Proper(a + [x] + b)
    requires x in prev && x in next
    ensures prev[x] == Last(a, NULL) && next[x] == First(b, NULL)
    ensures Threaded(if next[x] != NULL then prev[next[x] := prev[x]] else prev,
                     if prev[x] != NULL then next[prev[x] := next[x]] else next, a + b)
  {
    ProperParts(a, x, b);
    LinkedSplit3(prev, next, a, x, b);
    var p := if next[x] != NULL then prev[next[x] := prev[x]] else prev;
    var q := if prev[x] != NULL then next[prev[x] := next[x]] else next;
    LinkedRetargetRight(prev, next, NULL, a, x, First(b, NULL));
    LinkedRetargetLeft(prev, next, x, b, NULL, Last(a, NULL));
    LinkedFrame(prev, q, p, q, NULL, a, First(b, NULL));
    LinkedFrame(p, next, p, q, Last(a, NULL), b, NULL);
    LinkedSplit(p, q, NULL, a, b, NULL);
  }

  /** One node's links copied to another that takes its place. */
  lemma {:induction false} ThreadedReplace(prev: Links, next: Links, a: seq<Ptr>, x: Ptr, b: seq<Ptr>, n: Ptr)
    requires Threaded(prev, next, a + [x] + b) && Proper(a + [x] + b) && Proper(a + [n] + b)
    requires x in prev && x in next && x != n
    ensures prev[x] == Last(a, NULL) && next[x] == First(b, NULL)
    ensures var p1, q1 := prev[n := prev[x]], next[n := next[x]];
            Threaded(if next[x] != NULL then p1[next[x] := n] else p1,
                     if prev[x] != NULL then q1[prev[x] := n] else q1, a + [n] + b)
  {
    ProperParts(a, x, b);
    ProperParts(a, n, b);
    LinkedSplit3(prev, next, a, x, b);
    var p1, q1 := prev[n := prev[x]], next[n := next[x]];
    var p := if next[x] != NULL then p1[next[x] := n] else p1;
    var q := if prev[x] != NULL then q1[prev[x] := n] else q1;
    LinkedFrame(prev, next, p1, q1, NULL, a, x);
    LinkedFrame(prev, next, p1, q1, x, b, NULL);
    LinkedRetargetRight(p1, q1, NULL, a, x, n);
    LinkedRetargetLeft(p1, q1, x, b, NULL, n);
    LinkedFrame(p1, q, p, q, NULL, a, n);
    LinkedFrame(p, q1, p, q, n, b, NULL);
    LinkedSplit3(p, q, a, n, b);
  }

  /** A node not yet in the list may be put anywhere in it. */
  lemma {:induction false} FreshInList(a: seq<Ptr>, x: Ptr, b: seq<Ptr>)
    requires Proper(a + b) && x != NULL && x !in a && x !in b
    ensures Proper(a + [x] + b)
  {
    SpliceNodes(a, x, b);
    assert x !in SetOf(a + b);
  }

  /** The links of one place of the list. */
  lemma {:induction false} LinksAt(prev: Links, next: Links, s: seq<Ptr>, m: nat)
    requires Threaded(prev, next, s) && m < |s|
    ensures s[m] in prev && prev[s[m]] == (if m == 0 then NULL else s[m - 1])
    ensures s[m] in next && next[s[m]] == (if m == |s| - 1 then NULL else s[m + 1])
  {
    assert s == s[..m] + [s[m]] + s[m + 1..];
    LinkedSplit3(prev, next, s[..m], s[m], s[m + 1..]);
  }
}
