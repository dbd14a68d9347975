/** Addresses of nodes, in trees and in the chains of a hash. */
module Addresses {
  /** The address of a node; 0 is NULL. */
  type Ptr = nat
  const NULL: Ptr := 0

  /** There is always another address. */
  lemma {:induction false} FreshAddress(s: set<Ptr>)
    ensures exists p: Ptr :: p != NULL && p !in s
  {
    var p := AboveAll(s);
    assert p !in s;
  }

  lemma {:induction false} AboveAll(s: set<Ptr>) returns (p: Ptr)
    ensures p != NULL && forall x :: x in s ==> x < p
    decreases |s|
  {
    if s == {} {
      p := 1;
    } else {
      var x :| x in s;
      var q := AboveAll(s - {x});
      p := q + x + 1;
      assert forall y :: y in s ==> y == x || y in s - {x};
    }
  }
}
