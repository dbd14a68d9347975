/**
 Request-scoped memory of rimmem.c as seen by its users: which blocks are live, which of them are
 process-scoped, and what each call does to them. Memory.dfy shows that the table with its two
 chains does exactly this; here are the properties of whole runs.
 */
module MemoryBlocks {

  type Addr = int

  /** RIM_MAX_REF. */
  const MAX_REF: nat := 255

  /** A live block. file marks open files and directories, which are closed instead of freed. */
  datatype Block = Block(process: bool, ref: nat, file: bool)

  /** The live blocks, and whether new memory is process-scoped (rim_mem_process). */
  datatype Heap = Heap(blocks: map<Addr, Block>, mode: bool)

  datatype Op =
    | Malloc(p: Addr)
    | AddRef(p: Addr, toProcess: bool)
    | DecProcess(p: Addr)
    | Free(p: Addr)
    | FreeInt(p: Addr)
    | Realloc(p: Addr, q: Addr)
    | SetFile(p: Addr)
    | SetMode(mode: bool)
    | Done

  /** What callers observe: live addresses, fresh addresses from the C allocator, ordinary
      blocks only for the unconditional free, no reference overflow, and a process-scoped block
      moved only while process memory is being allocated. */
  predicate Allowed(h: Heap, op: Op) {
    match op
    case Malloc(p) => p !in h.blocks
    case AddRef(p, toProcess) =>
      p in h.blocks && (toProcess && h.blocks[p].process ==> h.blocks[p].ref < MAX_REF)
    case DecProcess(p) => p in h.blocks
    case Free(p) => p in h.blocks
    case FreeInt(p) => p in h.blocks && !h.blocks[p].process
    case Realloc(p, q) =>
      p in h.blocks && (q == p || (q !in h.blocks && (h.blocks[p].process ==> h.mode)))
    case SetFile(p) => p in h.blocks
    case SetMode(_) => true
    case Done => true
  }

  function Referenced(b: Block, toProcess: bool): Block {
    if !toProcess then (if b.process then b else b.(ref := 1))
    else if !b.process then b.(process := true, ref := 1)
    else b.(ref := b.ref + 1)
  }

  function Dropped(b: Block): Block {
    if !b.process then b
    else if b.ref <= 1 then b.(process := false, ref := 1)
    else b.(ref := b.ref - 1)
  }

  predicate FreeWorks(b: Block) {
    !b.process && b.ref == 0
  }

  function Step(h: Heap, op: Op): Heap
    requires Allowed(h, op)
  {
    match op
    case Malloc(p) => h.(blocks := h.blocks[p := Block(h.mode, 0, false)])
    case AddRef(p, toProcess) => h.(blocks := h.blocks[p := Referenced(h.blocks[p], toProcess)])
    case DecProcess(p) => h.(blocks := h.blocks[p := Dropped(h.blocks[p])])
    case Free(p) => if FreeWorks(h.blocks[p]) then h.(blocks := h.blocks - {p}) else h
    case FreeInt(p) => h.(blocks := h.blocks - {p})
    case Realloc(p, q) =>
      if q == p then h
      else h.(blocks := (h.blocks - {p})[q := Block(h.mode || h.blocks[p].process, h.blocks[p].ref, false)])
    case SetFile(p) => h.(blocks := h.blocks[p := h.blocks[p].(file := true)])
    case SetMode(mode) => h.(mode := mode)
    case Done => h.(blocks := map p | p in h.blocks && h.blocks[p].process :: h.blocks[p])
  }

  /** The addresses one call hands back to the C allocator with free (a moving realloc does
      this too). */
  function Freed(h: Heap, op: Op): set<Addr>
    requires Allowed(h, op)
  {
    match op
    case Free(p) => if FreeWorks(h.blocks[p]) then {p} else {}
    case FreeInt(p) => {p}
    case Realloc(p, q) => if q == p then {} else {p}
    case Done => set p | p in h.blocks && !h.blocks[p].process && !h.blocks[p].file
    case _ => {}
  }

  // ---------- runs ----------

  predicate AllowedRun(h: Heap, ops: seq<Op>)
    decreases |ops|
  {
    ops == [] || (Allowed(h, ops[0]) && AllowedRun(Step(h, ops[0]), ops[1..]))
  }

  /** The heap after the first k calls. */
  function After(h: Heap, ops: seq<Op>, k: nat): Heap
    requires AllowedRun(h, ops) && k <= |ops|
    decreases k
  {
    if k == 0 then h else After(Step(h, ops[0]), ops[1..], k - 1)
  }

  lemma {:induction false} RunStep(h: Heap, ops: seq<Op>, k: nat)
    requires AllowedRun(h, ops) && k < |ops|
    ensures Allowed(After(h, ops, k), ops[k])
    ensures After(h, ops, k + 1) == Step(After(h, ops, k), ops[k])
    decreases k
  {
    if k > 0 { RunStep(Step(h, ops[0]), ops[1..], k - 1); }
    else { assert After(Step(h, ops[0]), ops[1..], 0) == Step(h, ops[0]); }
  }

  predicate Allocates(op: Op, p: Addr) {
    (op.Malloc? && op.p == p) || (op.Realloc? && op.q == p && op.p != p)
  }

  /** A freed address is not live afterwards until it is allocated again. */
  lemma {:induction false} DeadUntilAllocated(h: Heap, ops: seq<Op>, i: nat, j: nat, p: Addr)
    requires AllowedRun(h, ops) && i <= j <= |ops| && p !in After(h, ops, i).blocks
    requires forall k :: i <= k < j ==> !Allocates(ops[k], p)
    ensures p !in After(h, ops, j).blocks
    decreases j - i
  {
    if i < j {
      RunStep(h, ops, i);
      DeadUntilAllocated(h, ops, i + 1, j, p);
    }
  }

  /** In every run, between two frees of one address there is an allocation of it: no block is
      freed twice. */
  lemma {:induction false} FreedAtMostOnce(h: Heap, ops: seq<Op>, i: nat, j: nat, p: Addr)
    requires AllowedRun(h, ops) && i < j < |ops|
    requires Allowed(After(h, ops, i), ops[i]) && p in Freed(After(h, ops, i), ops[i])
    requires Allowed(After(h, ops, j), ops[j]) && p in Freed(After(h, ops, j), ops[j])
    ensures exists k :: i < k < j && Allocates(ops[k], p)
  {
    if forall k :: i < k < j ==> !Allocates(ops[k], p) {
      RunStep(h, ops, i);
      DeadUntilAllocated(h, ops, i + 1, j, p);
    }
  }

  /** A block that must survive until the end of a request. */
  predicate Kept(h: Heap, p: Addr) {
    p in h.blocks && (h.blocks[p].process || h.blocks[p].ref > 0)
  }

  /** The end of a request that finds p ordinary. */
  predicate EndsFor(h: Heap, op: Op, p: Addr) {
    op.Done? && p in h.blocks && !h.blocks[p].process
  }

  /** Where a block is after a call: a reallocation may move it. */
  function Follow(p: Addr, op: Op): Addr {
    if op.Realloc? && op.p == p then op.q else p
  }

  /** Where the block at p before call i is before call k. */
  function Where(p: Addr, ops: seq<Op>, i: nat, k: nat): Addr
    requires i <= k <= |ops|
  {
    if i == k then p else Follow(Where(p, ops, i, k - 1), ops[k - 1])
  }

  /** The two ways to lose a kept block: an unconditional free, and the end of a request that finds it
      ordinary. */
  predicate Loses(h: Heap, op: Op, p: Addr) {
    op == FreeInt(p) || EndsFor(h, op, p)
  }

  lemma {:induction false} KeptUnlessLost(h: Heap, op: Op, p: Addr)
    requires Allowed(h, op) && Kept(h, p)
    ensures Kept(Step(h, op), Follow(p, op)) <==> !Loses(h, op, p)
    ensures !Loses(h, op, p) && p in Freed(h, op) ==> Follow(p, op) != p
  {
  }

  /** Between calls i and j the block that was at p before call i is kept; no call loses it; and only a
      move gives its memory back. */
  ghost predicate KeptThrough(h: Heap, ops: seq<Op>, i: nat, j: nat, p: Addr)
    requires AllowedRun(h, ops) && i <= j <= |ops|
  {
    forall k :: i <= k <= j ==> Kept(After(h, ops, k), Where(p, ops, i, k))
  }

  ghost predicate NeverLost(h: Heap, ops: seq<Op>, i: nat, j: nat, p: Addr)
    requires AllowedRun(h, ops) && i <= j <= |ops|
  {
    forall k :: i <= k < j ==> !Loses(After(h, ops, k), ops[k], Where(p, ops, i, k))
  }

  ghost predicate FreedByMovesOnly(h: Heap, ops: seq<Op>, i: nat, j: nat, p: Addr)
    requires AllowedRun(h, ops) && i <= j <= |ops|
  {
    forall k :: i <= k < j ==>
      && Allowed(After(h, ops, k), ops[k])
      && (Where(p, ops, i, k) in Freed(After(h, ops, k), ops[k]) ==> Follow(Where(p, ops, i, k), ops[k]) != Where(p, ops, i, k))
  }

  lemma OneCallMore(h: Heap, ops: seq<Op>, i: nat, l: nat, p: Addr)
    requires AllowedRun(h, ops) && i <= l < |ops|
    requires Allowed(After(h, ops, l), ops[l])
    ensures var s, b, op := After(h, ops, l), Where(p, ops, i, l), ops[l];
      && (KeptThrough(h, ops, i, l + 1, p) <==> KeptThrough(h, ops, i, l, p) && Kept(After(h, ops, l + 1), Follow(b, op)))
      && (NeverLost(h, ops, i, l + 1, p) <==> NeverLost(h, ops, i, l, p) && !Loses(s, op, b))
      && (FreedByMovesOnly(h, ops, i, l + 1, p) <==>
            FreedByMovesOnly(h, ops, i, l, p) && (b in Freed(s, op) ==> Follow(b, op) != b))
  {
    hide After, AllowedRun, Step, Freed, Allowed, Kept, Loses, Follow;
    assert Where(p, ops, i, l + 1) == Follow(Where(p, ops, i, l), ops[l]);
  }

  /** A block that is referenced or promoted is kept through a run, wherever reallocations move it, if
      and only if no call frees it unconditionally and no request ends that finds its last process
      reference dropped. Until then its memory is given back only by a move. */
  lemma {:induction false} KeptUntilRequestEnds(h: Heap, ops: seq<Op>, i: nat, j: nat, p: Addr)
    requires AllowedRun(h, ops) && i <= j <= |ops| && Kept(After(h, ops, i), p)
    ensures KeptThrough(h, ops, i, j, p) <==> NeverLost(h, ops, i, j, p)
    ensures NeverLost(h, ops, i, j, p) ==> FreedByMovesOnly(h, ops, i, j, p)
    decreases j - i
  {
    if i < j {
      hide After, AllowedRun, Step, Freed, Allowed, Kept, Loses, NeverLost, FreedByMovesOnly, Follow;
      var l := j - 1;
      KeptUntilRequestEnds(h, ops, i, l, p);
      RunStep(h, ops, l);
      OneCallMore(h, ops, i, l, p);
      var b := Where(p, ops, i, l);
      if KeptThrough(h, ops, i, l, p) {
        assert Kept(After(h, ops, l), b);
        KeptUnlessLost(After(h, ops, l), ops[l], b);
      }
    }
  }

  /** An ordinary block that was never referenced in any way goes with the first free. */
  lemma {:induction false} UnreferencedIsFreed(h: Heap, ops: seq<Op>, i: nat, j: nat, p: Addr)
    requires AllowedRun(h, ops) && i < j < |ops| && ops[i] == Malloc(p) && ops[j] == Free(p)
    requires !After(h, ops, i).mode
    requires forall k :: i < k < j ==>
               !(ops[k].AddRef? && ops[k].p == p) && ops[k] != Done && ops[k] != FreeInt(p) && ops[k] != Free(p)
               && !(ops[k].Realloc? && (ops[k].p == p || ops[k].q == p))
    ensures Allowed(After(h, ops, j), ops[j]) && Freed(After(h, ops, j), ops[j]) == {p}
    ensures p !in After(h, ops, j + 1).blocks
  {
    StaysUnreferenced(h, ops, i, j, p);
    RunStep(h, ops, j);
  }

  lemma {:induction false} StaysUnreferenced(h: Heap, ops: seq<Op>, i: nat, j: nat, p: Addr)
    requires AllowedRun(h, ops) && i < j < |ops| && ops[i] == Malloc(p)
    requires !After(h, ops, i).mode
    requires forall k :: i < k < j ==>
               !(ops[k].AddRef? && ops[k].p == p) && ops[k] != Done && ops[k] != FreeInt(p) && ops[k] != Free(p)
               && !(ops[k].Realloc? && (ops[k].p == p || ops[k].q == p))
    ensures p in After(h, ops, j).blocks && FreeWorks(After(h, ops, j).blocks[p])
    decreases j
  {
    RunStep(h, ops, j - 1);
    if i < j - 1 { StaysUnreferenced(h, ops, i, j - 1, p); }
  }
}
