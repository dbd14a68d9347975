/**
 How long a block of rimmem.c stays process-scoped, counted from the calls alone: the process
 references added to it and dropped from it, wherever reallocations have moved it.
 */
module MemoryScopes {
  import opened MemoryBlocks

  /** The process references that calls i to k - 1 add to the block that is at p before call i. */
  function Added(p: Addr, ops: seq<Op>, i: nat, k: nat): nat
    requires i <= k <= |ops|
  {
    if i == k then 0
    else Added(p, ops, i, k - 1) + if ops[k - 1] == AddRef(Where(p, ops, i, k - 1), true) then 1 else 0
  }

  /** The process references that calls i to k - 1 drop from it. */
  function Drops(p: Addr, ops: seq<Op>, i: nat, k: nat): nat
    requires i <= k <= |ops|
  {
    if i == k then 0
    else Drops(p, ops, i, k - 1) + if ops[k - 1] == DecProcess(Where(p, ops, i, k - 1)) then 1 else 0
  }

  predicate ProcessScoped(h: Heap, p: Addr) {
    p in h.blocks && h.blocks[p].process
  }

  predicate Ordinary(h: Heap, p: Addr) {
    p in h.blocks && !h.blocks[p].process
  }

  /** A call that promotes the ordinary block at p: a process reference, or a move while process
      memory is being allocated. */
  predicate Promotes(h: Heap, op: Op, p: Addr) {
    op == AddRef(p, true) || (h.mode && op.Realloc? && op.p == p && op.q != p)
  }

  // ---------- one call ----------

  /** Only the drop of the last reference ends the process scope of a block, and it leaves the block
      referenced; every other call on it changes its references by what it says. */
  lemma ProcessStep(h: Heap, op: Op, p: Addr)
    requires Allowed(h, op) && ProcessScoped(h, p)
    ensures var q, g := Follow(p, op), Step(h, op);
      && q in g.blocks
      && (g.blocks[q].process <==> !(op == DecProcess(p) && h.blocks[p].ref <= 1))
      && (g.blocks[q].process ==>
            g.blocks[q].ref == h.blocks[p].ref + (if op == AddRef(p, true) then 1 else 0)
                                               - (if op == DecProcess(p) then 1 else 0))
      && (!g.blocks[q].process ==> g.blocks[q].ref > 0)
  {
  }

  /** An ordinary block stays ordinary unless a call promotes it, and a reference keeps it from the
      next free. */
  lemma OrdinaryStep(h: Heap, op: Op, p: Addr)
    requires Allowed(h, op) && Ordinary(h, p) && op != FreeInt(p) && op != Done
    ensures var q, g := Follow(p, op), Step(h, op);
      && (h.blocks[p].ref > 0 ==> q in g.blocks && (g.blocks[q].process || g.blocks[q].ref > 0))
      && (op.AddRef? && op.p == p ==> q in g.blocks && g.blocks[q].ref == 1)
      && (q in g.blocks ==> (g.blocks[q].process <==> Promotes(h, op, p)))
      && (q !in g.blocks <==> op == Free(p) && h.blocks[p].ref == 0)
      && (q in g.blocks ==>
            (g.blocks[q].file <==> op == SetFile(p) || (h.blocks[p].file && !(op.Realloc? && op.p == p && op.q != p))))
  {
  }

  // ---------- runs ----------

  /** The block at p before call i is process-scoped from there through call k. */
  ghost predicate ProcessThrough(h: Heap, ops: seq<Op>, i: nat, k: nat, p: Addr)
    requires AllowedRun(h, ops) && i <= k <= |ops|
  {
    forall m :: i <= m <= k ==> ProcessScoped(After(h, ops, m), Where(p, ops, i, m))
  }

  /** None of the calls i to k - 1 drops the last of the references when there were r before call i. */
  ghost predicate NoLastDrop(ops: seq<Op>, i: nat, k: nat, p: Addr, r: nat)
    requires i <= k <= |ops|
  {
    forall m :: i <= m < k && ops[m] == DecProcess(Where(p, ops, i, m)) ==>
      r + Added(p, ops, i, m) - Drops(p, ops, i, m) > 1
  }

  /** However a block became process-scoped, it stays so exactly as long as no call drops its last
      reference, and its count is what the calls add and drop. */
  lemma {:induction false} ProcessUntilLastDrop(h: Heap, ops: seq<Op>, i: nat, k: nat, p: Addr)
    requires AllowedRun(h, ops) && i <= k <= |ops| && ProcessScoped(After(h, ops, i), p)
    ensures var r := After(h, ops, i).blocks[p].ref;
      && (ProcessThrough(h, ops, i, k, p) <==> NoLastDrop(ops, i, k, p, r))
      && (ProcessThrough(h, ops, i, k, p) ==>
            ProcessScoped(After(h, ops, k), Where(p, ops, i, k))
            && After(h, ops, k).blocks[Where(p, ops, i, k)].ref == r + Added(p, ops, i, k) - Drops(p, ops, i, k))
    decreases k - i
  {
    hide After, AllowedRun, Step, Allowed, Follow, ProcessThrough, NoLastDrop;
    var r := After(h, ops, i).blocks[p].ref;
    if i < k {
      var l := k - 1;
      ProcessUntilLastDrop(h, ops, i, l, p);
      RunStep(h, ops, l);
      ThroughMore(h, ops, i, l, p, r);
      assert Where(p, ops, i, k) == Follow(Where(p, ops, i, l), ops[l]);
      if ProcessThrough(h, ops, i, l, p) {
        ProcessStep(After(h, ops, l), ops[l], Where(p, ops, i, l));
      }
    } else {
      ThroughNone(h, ops, i, p, r);
    }
  }

  lemma ThroughMore(h: Heap, ops: seq<Op>, i: nat, l: nat, p: Addr, r: nat)
    requires AllowedRun(h, ops) && i <= l < |ops|
    ensures ProcessThrough(h, ops, i, l + 1, p) <==>
              ProcessThrough(h, ops, i, l, p) && ProcessScoped(After(h, ops, l + 1), Where(p, ops, i, l + 1))
    ensures NoLastDrop(ops, i, l + 1, p, r) <==>
              NoLastDrop(ops, i, l, p, r)
              && (ops[l] == DecProcess(Where(p, ops, i, l)) ==> r + Added(p, ops, i, l) - Drops(p, ops, i, l) > 1)
  {
    hide After, AllowedRun, ProcessScoped, Where, Added, Drops;
  }

  lemma ThroughNone(h: Heap, ops: seq<Op>, i: nat, p: Addr, r: nat)
    requires AllowedRun(h, ops) && i <= |ops|
    ensures ProcessThrough(h, ops, i, i, p) <==> ProcessScoped(After(h, ops, i), p)
    ensures NoLastDrop(ops, i, i, p, r) && Where(p, ops, i, i) == p && Added(p, ops, i, i) == 0 && Drops(p, ops, i, i) == 0
  {
    hide After, AllowedRun, ProcessScoped;
  }

  /** After each of the calls i to k - 1 more process references were added than dropped. */
  ghost predicate MoreAdded(ops: seq<Op>, i: nat, k: nat, p: Addr)
    requires i <= k <= |ops|
  {
    forall m :: i < m <= k ==> Added(p, ops, i, m) > Drops(p, ops, i, m)
  }

  ghost predicate ProcessSince(h: Heap, ops: seq<Op>, i: nat, k: nat, p: Addr)
    requires AllowedRun(h, ops) && i <= k <= |ops|
  {
    forall m :: i < m <= k ==> ProcessScoped(After(h, ops, m), Where(p, ops, i, m))
  }

  lemma SinceMore(h: Heap, ops: seq<Op>, i: nat, l: nat, p: Addr)
    requires AllowedRun(h, ops) && i <= l < |ops|
    ensures ProcessSince(h, ops, i, l + 1, p) <==>
              ProcessSince(h, ops, i, l, p) && ProcessScoped(After(h, ops, l + 1), Where(p, ops, i, l + 1))
    ensures MoreAdded(ops, i, l + 1, p) <==> MoreAdded(ops, i, l, p) && Added(p, ops, i, l + 1) > Drops(p, ops, i, l + 1)
    ensures i < l && MoreAdded(ops, i, l, p) ==> Added(p, ops, i, l) > Drops(p, ops, i, l)
  {
    hide After, AllowedRun, ProcessScoped, Where, Added, Drops;
  }

  /** An ordinary block that gets a process reference with call i is process-scoped exactly as long as
      more references were added since then than dropped; its count is the difference. */
  lemma {:induction false} ReferenceHolds(h: Heap, ops: seq<Op>, i: nat, k: nat, p: Addr)
    requires AllowedRun(h, ops) && i < k <= |ops|
    requires Ordinary(After(h, ops, i), p) && ops[i] == AddRef(p, true)
    ensures ProcessSince(h, ops, i, k, p) <==> MoreAdded(ops, i, k, p)
    ensures ProcessSince(h, ops, i, k, p) ==>
              ProcessScoped(After(h, ops, k), Where(p, ops, i, k))
              && After(h, ops, k).blocks[Where(p, ops, i, k)].ref == Added(p, ops, i, k) - Drops(p, ops, i, k)
    decreases k - i
  {
    hide After, AllowedRun, Step, Allowed, Follow, ProcessSince, MoreAdded;
    var l := k - 1;
    RunStep(h, ops, l);
    SinceMore(h, ops, i, l, p);
    assert Where(p, ops, i, k) == Follow(Where(p, ops, i, l), ops[l]);
    if i == l {
      assert Where(p, ops, i, i) == p && Added(p, ops, i, i) == 0 && Drops(p, ops, i, i) == 0;
      OneReference(After(h, ops, i), p);
      NoneYet(h, ops, i, p);
    } else {
      ReferenceHolds(h, ops, i, l, p);
      if ProcessSince(h, ops, i, l, p) {
        ProcessStep(After(h, ops, l), ops[l], Where(p, ops, i, l));
      }
    }
  }

  lemma NoneYet(h: Heap, ops: seq<Op>, i: nat, p: Addr)
    requires AllowedRun(h, ops) && i <= |ops|
    ensures ProcessSince(h, ops, i, i, p) && MoreAdded(ops, i, i, p)
  {
    hide After, AllowedRun;
  }

  /** The first process reference of an ordinary block. */
  lemma OneReference(h: Heap, p: Addr)
    requires Ordinary(h, p)
    ensures Allowed(h, AddRef(p, true)) && Follow(p, AddRef(p, true)) == p
    ensures var g := Step(h, AddRef(p, true)); ProcessScoped(g, p) && g.blocks[p].ref == 1
  {
  }

  /** The call that makes additions and drops equal is a drop; it finds the block live and leaves it
      ordinary and referenced, so that only the end of the request takes it. */
  lemma {:induction false} LastDropDemotes(h: Heap, ops: seq<Op>, i: nat, k: nat, p: Addr)
    requires AllowedRun(h, ops) && i < k <= |ops|
    requires Ordinary(After(h, ops, i), p) && ops[i] == AddRef(p, true)
    requires MoreAdded(ops, i, k - 1, p) && Added(p, ops, i, k) == Drops(p, ops, i, k)
    ensures i < k - 1 && ops[k - 1] == DecProcess(Where(p, ops, i, k - 1))
    ensures Ordinary(After(h, ops, k), Where(p, ops, i, k))
    ensures After(h, ops, k).blocks[Where(p, ops, i, k)].ref > 0
  {
    hide After, AllowedRun, Step, Allowed;
    var l := k - 1;
    assert Where(p, ops, i, i) == p;
    assert Added(p, ops, i, i) == 0 && Drops(p, ops, i, i) == 0;
    if i < l {
      ReferenceHolds(h, ops, i, l, p);
      assert Added(p, ops, i, l) > Drops(p, ops, i, l);
      RunStep(h, ops, l);
      ProcessStep(After(h, ops, l), ops[l], Where(p, ops, i, l));
    }
  }

  /** Neither the end of a request nor an unconditional free takes such a block before its last process
      reference was dropped. */
  lemma {:induction false} LostOnlyAfterLastDrop(h: Heap, ops: seq<Op>, i: nat, j: nat, p: Addr)
    requires AllowedRun(h, ops) && i < j < |ops|
    requires Ordinary(After(h, ops, i), p) && ops[i] == AddRef(p, true)
    requires Loses(After(h, ops, j), ops[j], Where(p, ops, i, j))
    ensures exists k :: i < k <= j && Added(p, ops, i, k) <= Drops(p, ops, i, k)
  {
    hide After, AllowedRun, Step;
    if MoreAdded(ops, i, j, p) {
      ReferenceHolds(h, ops, i, j, p);
      RunStep(h, ops, j);
    }
  }

  /** Calls k to j - 1 neither promote the block at p before call k nor free it unconditionally, and
      no request ends. */
  ghost predicate LeftAlone(h: Heap, ops: seq<Op>, k: nat, j: nat, p: Addr)
    requires AllowedRun(h, ops) && k <= j <= |ops|
  {
    forall m :: k <= m < j ==>
      && !Promotes(After(h, ops, m), ops[m], Where(p, ops, k, m))
      && ops[m] != FreeInt(Where(p, ops, k, m)) && ops[m] != Done
  }

  /** Whether the block that is at p before call i holds an open file before call k: it was marked since,
      and not moved after that, or held one before and was not moved. */
  predicate HoldsFile(p: Addr, ops: seq<Op>, i: nat, k: nat, before: bool)
    requires i <= k <= |ops|
  {
    if i == k then before
    else
      var op, b := ops[k - 1], Where(p, ops, i, k - 1);
      op == SetFile(b) || (HoldsFile(p, ops, i, k - 1, before) && !(op.Realloc? && op.p == b && op.q != b))
  }

  /** An ordinary block that is referenced goes with the first end of a request, if nothing promotes it
      before; its memory is freed unless it holds an open file. */
  lemma {:induction false} GoesWithTheRequest(h: Heap, ops: seq<Op>, k: nat, j: nat, p: Addr)
    requires AllowedRun(h, ops) && k <= j < |ops| && ops[j] == Done
    requires Ordinary(After(h, ops, k), p) && After(h, ops, k).blocks[p].ref > 0
    requires LeftAlone(h, ops, k, j, p)
    ensures var q := Where(p, ops, k, j);
      && Ordinary(After(h, ops, j), q)
      && (q in Freed(After(h, ops, j), Done) <==> !HoldsFile(p, ops, k, j, After(h, ops, k).blocks[p].file))
      && q !in After(h, ops, j + 1).blocks
  {
    StaysOrdinary(h, ops, k, j, p);
    RunStep(h, ops, j);
  }

  lemma {:induction false} StaysOrdinary(h: Heap, ops: seq<Op>, k: nat, j: nat, p: Addr)
    requires AllowedRun(h, ops) && k <= j <= |ops|
    requires Ordinary(After(h, ops, k), p) && After(h, ops, k).blocks[p].ref > 0
    requires LeftAlone(h, ops, k, j, p)
    ensures var q := Where(p, ops, k, j);
      && Ordinary(After(h, ops, j), q) && After(h, ops, j).blocks[q].ref > 0
      && (After(h, ops, j).blocks[q].file <==> HoldsFile(p, ops, k, j, After(h, ops, k).blocks[p].file))
    decreases j - k
  {
    hide After, AllowedRun, Step, Allowed, Follow, Promotes;
    if k < j {
      var l := j - 1;
      StaysOrdinary(h, ops, k, l, p);
      RunStep(h, ops, l);
      assert Where(p, ops, k, j) == Follow(Where(p, ops, k, l), ops[l]);
      OrdinaryStep(After(h, ops, l), ops[l], Where(p, ops, k, l));
    }
  }

  // ---------- new memory ----------

  /** The mode is the one that was set last. */
  lemma {:induction false} ModeIsLastSet(h: Heap, ops: seq<Op>, l: nat, k: nat)
    requires AllowedRun(h, ops) && l < k <= |ops| && ops[l].SetMode?
    requires forall m :: l < m < k ==> !ops[m].SetMode?
    ensures After(h, ops, k).mode == ops[l].mode
    decreases k
  {
    RunStep(h, ops, k - 1);
    if l < k - 1 { ModeIsLastSet(h, ops, l, k - 1); }
  }

  /** A call that may change or end the block at p, other than SetFile. */
  predicate Touches(op: Op, p: Addr) {
    match op
    case Malloc(q) => q == p
    case AddRef(q, _) => q == p
    case DecProcess(q) => q == p
    case Free(q) => q == p
    case FreeInt(q) => q == p
    case Realloc(q, r) => q == p || r == p
    case Done => true
    case _ => false
  }

  /** A block that is only allocated, and perhaps holds an open file, outlives its request exactly if
      process memory was being allocated; if it goes, its memory is freed unless it holds a file. */
  lemma {:induction false} AllocationScope(h: Heap, ops: seq<Op>, i: nat, j: nat, p: Addr)
    requires AllowedRun(h, ops) && i < j < |ops| && ops[i] == Malloc(p) && ops[j] == Done
    requires forall k :: i < k < j ==> !Touches(ops[k], p)
    ensures p in After(h, ops, j + 1).blocks <==> After(h, ops, i).mode
    ensures p in Freed(After(h, ops, j), Done) <==>
              !After(h, ops, i).mode && forall k :: i < k < j ==> ops[k] != SetFile(p)
  {
    AsAllocated(h, ops, i, j, p);
    RunStep(h, ops, j);
  }

  lemma {:induction false} AsAllocated(h: Heap, ops: seq<Op>, i: nat, j: nat, p: Addr)
    requires AllowedRun(h, ops) && i < j <= |ops| && ops[i] == Malloc(p)
    requires forall k :: i < k < j ==> !Touches(ops[k], p)
    ensures p in After(h, ops, j).blocks
    ensures var b := After(h, ops, j).blocks[p];
      && b.process == After(h, ops, i).mode && b.ref == 0
      && (b.file <==> exists k :: i < k < j && ops[k] == SetFile(p))
    decreases j
  {
    hide After, AllowedRun;
    RunStep(h, ops, j - 1);
    if i < j - 1 { AsAllocated(h, ops, i, j - 1, p); }
  }
}
