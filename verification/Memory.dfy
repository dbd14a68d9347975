/**
 The table vm[] of rimmem.c: two singly linked chains, free and ordinary, through one next field,
 process-scoped entries on neither, and in front of every block a header naming its entry.
 */
module Memory {
  import opened Common
  import opened MemoryBlocks

  /** vml. */
  datatype Entry = Entry(ptr: Addr, next: int, free: bool, process: bool, file: bool, ref: nat)

  type Table = seq<Entry>

  /** The id of a string constant, which has no entry. */
  const CONSTANT: int := -1

  /** Following next from h visits exactly the entries of s and then ends. */
  ghost predicate Chain(vm: Table, h: int, s: seq<int>)
    decreases |s|
  {
    if s == [] then h == -1
    else h == s[0] && 0 <= h < |vm| && Chain(vm, vm[h].next, s[1..])
  }

  lemma {:induction false} ChainInside(vm: Table, h: int, s: seq<int>)
    requires Chain(vm, h, s)
    ensures forall i :: i in s ==> 0 <= i < |vm|
    decreases |s|
  {
    if s != [] {
      ChainInside(vm, vm[h].next, s[1..]);
      forall i | i in s ensures 0 <= i < |vm| { assert i == s[0] || i in s[1..]; }
    }
  }

  /** A chain depends only on the next fields of its own entries. */
  lemma {:induction false} ChainFrame(vm0: Table, vm1: Table, h: int, s: seq<int>)
    requires Chain(vm0, h, s)
    requires forall i :: i in s && 0 <= i < |vm0| ==> i < |vm1| && vm1[i].next == vm0[i].next
    ensures Chain(vm1, h, s)
    decreases |s|
  {
    if s != [] {
      assert s[0] in s && forall i :: i in s[1..] ==> i in s;
      ChainFrame(vm0, vm1, vm0[h].next, s[1..]);
    }
  }

  /** Every index is in exactly one of three places, by its flags. loose entries are live ones
      that have just left the chain and are about to be released. */
  ghost predicate Partitioned(vm: Table, freeChain: seq<int>, ordChain: seq<int>, loose: set<int>) {
    && NoDup(freeChain) && NoDup(ordChain)
    && forall i :: 0 <= i < |vm| ==>
      && (i in freeChain <==> vm[i].free)
      && (i in ordChain <==> !vm[i].free && !vm[i].process && i !in loose)
      && (i in loose ==> !vm[i].free)
  }

  function BlockOf(e: Entry): Block {
    Block(e.process, e.ref, e.file)
  }

  /** Every live entry's block names it in its header, every header names its entry, and blocks
      is what those entries say. */
  ghost predicate Named(vm: Table, ids: map<Addr, int>, blocks: map<Addr, Block>) {
    && (forall i :: 0 <= i < |vm| && !vm[i].free ==> vm[i].ptr in ids && ids[vm[i].ptr] == i)
    && (forall p :: p in blocks <==> p in ids && ids[p] != CONSTANT)
    && (forall p :: p in blocks ==>
          0 <= ids[p] < |vm| && !vm[ids[p]].free && vm[ids[p]].ptr == p && blocks[p] == BlockOf(vm[ids[p]]))
  }

  /** Payloads of r and f exchanged, links left in place. */
  function Exchange(vm: Table, r: int, f: int): Table
    requires 0 <= r < |vm| && 0 <= f < |vm|
  {
    vm[r := vm[f].(next := vm[r].next)][f := vm[r].(next := vm[f].next)]
  }

  /** The headers of the blocks at r and f exchanged. */
  function ExchangeIds(vm: Table, ids: map<Addr, int>, r: int, f: int): map<Addr, int>
    requires 0 <= r < |vm| && 0 <= f < |vm|
  {
    ids[vm[r].ptr := f][vm[f].ptr := r]
  }

  lemma {:induction false} ExchangeKeepsNames(vm: Table, ids: map<Addr, int>, blocks: map<Addr, Block>, r: int, f: int)
    requires 0 <= r < |vm| && 0 <= f < |vm| && r != f && !vm[r].free && !vm[f].free
    requires Named(vm, ids, blocks)
    ensures vm[r].ptr in ids && vm[f].ptr in ids && ids[vm[r].ptr] == r && ids[vm[f].ptr] == f
    ensures Named(Exchange(vm, r, f), ExchangeIds(vm, ids, r, f), blocks)
    ensures ExchangeIds(vm, ids, r, f).Keys == ids.Keys
  {
    var vm1, ids1 := Exchange(vm, r, f), ExchangeIds(vm, ids, r, f);
    forall i | 0 <= i < |vm1| && !vm1[i].free
      ensures vm1[i].ptr in ids1 && ids1[vm1[i].ptr] == i
    {
      if i != r && i != f { assert vm1[i] == vm[i] && ids[vm[i].ptr] == i; }
    }
  }

  lemma {:induction false} ExchangeKeepsParts(vm: Table, freeChain: seq<int>, ordChain: seq<int>, r: int, f: int)
    requires 0 <= r < |vm| && 0 <= f < |vm| && r in ordChain && f in ordChain
    requires Partitioned(vm, freeChain, ordChain, {})
    ensures Partitioned(Exchange(vm, r, f), freeChain, ordChain, {})
  {
  }

  lemma ChainHead(vm: Table, h: int, s: seq<int>)
    requires Chain(vm, h, s) && s != []
    ensures h == s[0] && 0 <= h < |vm| && Chain(vm, vm[h].next, s[1..])
  {
  }

  lemma OrdinaryIsChained(vm: Table, freeChain: seq<int>, ordChain: seq<int>, r: int)
    requires Partitioned(vm, freeChain, ordChain, {}) && 0 <= r < |vm| && !vm[r].free && !vm[r].process
    ensures r in ordChain
  {
  }

  lemma InOrdinary(vm: Table, freeChain: seq<int>, ordChain: seq<int>, r: int)
    requires Partitioned(vm, freeChain, ordChain, {}) && 0 <= r < |vm| && r in ordChain
    ensures !vm[r].free && !vm[r].process
  {
  }

  lemma ExchangeLinks(vm: Table, r: int, f: int)
    requires 0 <= r < |vm| && 0 <= f < |vm|
    ensures var e := Exchange(vm, r, f);
      |e| == |vm| && e[f] == vm[r].(next := vm[f].next) && forall i :: 0 <= i < |vm| ==> e[i].next == vm[i].next
  {
  }

  /** The head of the ordinary chain leaves it. */
  lemma {:induction false} HeadLeaves(vm: Table, freeChain: seq<int>, ordChain: seq<int>)
    requires ordChain != [] && Partitioned(vm, freeChain, ordChain, {})
    ensures Partitioned(vm, freeChain, ordChain[1..], {ordChain[0]})
  {
    var rest := ordChain[1..];
    assert forall i :: 0 <= i < |rest| ==> rest[i] == ordChain[i + 1];
    forall i ensures i in rest <==> i in ordChain && i != ordChain[0] {
      if i in ordChain && i != ordChain[0] {
        var k :| 0 <= k < |ordChain| && ordChain[k] == i;
        assert rest[k - 1] == i;
      }
    }
  }

  /** What rim_mem_release leaves in an entry. */
  function Released(e: Entry, next: int): Entry {
    Entry(0, next, true, false, false, e.ref)
  }

  /** A block leaves with its entry. */
  lemma {:induction false} ReleaseKeepsNames(vm: Table, ids: map<Addr, int>, blocks: map<Addr, Block>, r: int, next: int)
    requires Named(vm, ids, blocks) && 0 <= r < |vm| && !vm[r].free
    ensures vm[r].ptr in blocks && blocks[vm[r].ptr] == BlockOf(vm[r])
    ensures Named(vm[r := Released(vm[r], next)], ids - {vm[r].ptr}, blocks - {vm[r].ptr})
  {
    var p, vm1, ids1 := vm[r].ptr, vm[r := Released(vm[r], next)], ids - {vm[r].ptr};
    assert ids[p] == r;
    forall i | 0 <= i < |vm1| && !vm1[i].free ensures vm1[i].ptr in ids1 && ids1[vm1[i].ptr] == i {
      assert ids[vm[i].ptr] == i;
    }
  }

  /** A fresh block comes with its entry, which was free or did not exist. */
  lemma {:induction false} AddKeepsNames(vm: Table, ids: map<Addr, int>, blocks: map<Addr, Block>, vm1: Table, r: int, p: Addr)
    requires Named(vm, ids, blocks) && p !in ids && 0 <= r < |vm1| && !vm1[r].free && vm1[r].ptr == p
    requires if r < |vm| then vm[r].free && |vm1| == |vm| else r == |vm| && |vm1| == |vm| + 1
    requires forall i :: 0 <= i < |vm| && i != r ==> vm1[i] == vm[i]
    ensures Named(vm1, ids[p := r], blocks[p := BlockOf(vm1[r])])
  {
    var ids1 := ids[p := r];
    forall i | 0 <= i < |vm1| && !vm1[i].free ensures vm1[i].ptr in ids1 && ids1[vm1[i].ptr] == i {
      if i != r { assert vm1[i] == vm[i] && ids[vm[i].ptr] == i; }
    }
  }

  /** Flags and links of one live entry change, its block stays. */
  lemma {:induction false} FlagsKeepNames(vm: Table, ids: map<Addr, int>, blocks: map<Addr, Block>, vm1: Table, r: int)
    requires Named(vm, ids, blocks) && 0 <= r < |vm| && !vm[r].free && |vm1| == |vm|
    requires !vm1[r].free && vm1[r].ptr == vm[r].ptr
    requires forall i :: 0 <= i < |vm| && i != r ==> vm1[i] == vm[i]
    ensures Named(vm1, ids, blocks[vm[r].ptr := BlockOf(vm1[r])])
  {
    assert ids[vm[r].ptr] == r;
    forall i | 0 <= i < |vm1| && !vm1[i].free ensures vm1[i].ptr in ids && ids[vm1[i].ptr] == i {
      if i != r { assert vm1[i] == vm[i]; }
    }
  }

  /** The C allocator has moved a block together with its header. */
  lemma {:induction false} MoveKeepsNames(vm: Table, ids: map<Addr, int>, blocks: map<Addr, Block>, p: Addr, q: Addr)
    requires Named(vm, ids, blocks) && p in blocks && q !in ids
    ensures 0 <= ids[p] < |vm| && vm[ids[p]].ptr == p
    ensures Named(vm[ids[p] := vm[ids[p]].(ptr := q)], (ids - {p})[q := ids[p]], (blocks - {p})[q := blocks[p]])
  {
    var r := ids[p];
    var vm1, ids1 := vm[r := vm[r].(ptr := q)], (ids - {p})[q := r];
    forall i | 0 <= i < |vm1| && !vm1[i].free ensures vm1[i].ptr in ids1 && ids1[vm1[i].ptr] == i {
      if i != r { assert vm1[i] == vm[i] && ids[vm[i].ptr] == i; }
    }
  }

  class Manager {
    var vm: Table
    var firstFree: int
    var firstOrd: int
    /** The header id of every block of memory handed out. */
    var ids: map<Addr, int>
    /** rim_mem_process. */
    var mode: bool
    /** The two chains, and the blocks as their users see them. */
    ghost var freeChain: seq<int>
    ghost var ordChain: seq<int>
    ghost var blocks: map<Addr, Block>

    /** The chains are sound; loose entries are between chains. */
    ghost predicate Inv(loose: set<int>)
      reads this`vm, this`firstFree, this`firstOrd, this`freeChain, this`ordChain
    {
      && Chain(vm, firstFree, freeChain) && Chain(vm, firstOrd, ordChain)
      && Partitioned(vm, freeChain, ordChain, loose)
      && forall i :: i in loose ==> 0 <= i < |vm|
    }

    ghost predicate Valid()
      reads this
    {
      Inv({}) && Named(vm, ids, blocks)
    }

    ghost function View(): Heap
      reads this
    {
      Heap(blocks, mode)
    }

    constructor ()
      ensures Valid() && View() == Heap(map[], false) && ids == map[]
    {
      vm, firstFree, firstOrd, ids, mode := [], -1, -1, map[], false;
      freeChain, ordChain, blocks := [], [], map[];
    }

    // ---------- chains ----------

    /** rim_mem_add_ord. */
    method AddOrd(r: int)
      requires Inv({r}) && 0 <= r < |vm| && !vm[r].process
      modifies this`vm, this`firstOrd, this`ordChain
      ensures Inv({}) && |vm| == |old(vm)| && vm == old(vm)[r := old(vm)[r].(next := vm[r].next)]
    {
      ChainInside(vm, firstOrd, ordChain);
      ghost var vm0 := vm;
      if firstOrd == -1 {
        firstOrd := r;
        vm := vm[r := vm[r].(next := -1)];
      } else {
        vm := vm[r := vm[r].(next := firstOrd)];
        firstOrd := r;
      }
      ChainFrame(vm0, vm, old(firstOrd), ordChain);
      ChainFrame(vm0, vm, firstFree, freeChain);
      ordChain := [r] + ordChain;
      assert ordChain[1..] == old(ordChain);
    }

    /** rim_mem_del_ord: the block changes places with the head of the chain, which then leaves.
        The result is where the block's entry is now. */
    method DelOrd(r: int) returns (at: int)
      requires Valid() && 0 <= r < |vm| && !vm[r].free && !vm[r].process
      modifies this`vm, this`firstOrd, this`ids, this`ordChain
      ensures 0 <= at < |vm| && Inv({at}) && Named(vm, ids, blocks) && ids.Keys == old(ids).Keys
      ensures vm[at] == old(vm)[r].(next := vm[at].next)
    {
      hide Chain, Partitioned, NoDup;
      OrdinaryIsChained(vm, freeChain, ordChain, r);
      ChainHead(vm, firstOrd, ordChain);
      ChainInside(vm, firstOrd, ordChain);
      var firstOrdNext := vm[firstOrd].next;
      at := r;
      if r != firstOrd {
        MoveToHead(r);
        at := firstOrd;
      }
      firstOrd := firstOrdNext;
      ChainHead(vm, at, ordChain);
      HeadLeaves(vm, freeChain, ordChain);
      ordChain := ordChain[1..];
    }

    /** The payload of r goes to the head of the ordinary chain and the other way round. */
    method MoveToHead(r: int)
      requires Valid() && r in ordChain && 0 <= r < |vm| && 0 <= firstOrd < |vm| && r != firstOrd
      modifies this`vm, this`ids
      ensures Valid() && |vm| == |old(vm)| && ids.Keys == old(ids).Keys
      ensures vm[firstOrd] == old(vm)[r].(next := vm[firstOrd].next)
      ensures vm[firstOrd].next == old(vm)[firstOrd].next
    {
      hide Named, Partitioned, Chain, NoDup, Exchange, ExchangeIds;
      ghost var vm0 := vm;
      ChainHead(vm, firstOrd, ordChain);
      InOrdinary(vm, freeChain, ordChain, r);
      InOrdinary(vm, freeChain, ordChain, firstOrd);
      ExchangeLinks(vm, r, firstOrd);
      ExchangeKeepsNames(vm, ids, blocks, r, firstOrd);
      ExchangeKeepsParts(vm, freeChain, ordChain, r, firstOrd);
      SwapWithHead(r);
      ChainFrame(vm0, vm, firstFree, freeChain);
      ChainFrame(vm0, vm, firstOrd, ordChain);
    }

    /** Entries are exchanged, their links exchanged back, and the two headers exchanged. */
    method SwapWithHead(r: int)
      requires 0 <= r < |vm| && 0 <= firstOrd < |vm| && r != firstOrd
      requires vm[r].ptr in ids && vm[firstOrd].ptr in ids && ids[vm[r].ptr] == r && ids[vm[firstOrd].ptr] == firstOrd
      modifies this`vm, this`ids
      ensures vm == Exchange(old(vm), r, firstOrd) && ids == ExchangeIds(old(vm), old(ids), r, firstOrd)
    {
      var temp := vm[r];
      vm := vm[r := vm[firstOrd]];
      vm := vm[firstOrd := temp];
      var tnext := vm[r].next;
      vm := vm[r := vm[r].(next := vm[firstOrd].next)];
      vm := vm[firstOrd := vm[firstOrd].(next := tnext)];
      var tid := ids[vm[r].ptr];
      ids := ids[vm[r].ptr := ids[vm[firstOrd].ptr]];
      ids := ids[vm[firstOrd].ptr := tid];
    }

    /** rim_mem_release: the entry goes to the front of the free chain. */
    method Release(r: int)
      requires Inv({r}) && 0 <= r < |vm|
      modifies this`vm, this`firstFree, this`freeChain
      ensures Inv({}) && vm == old(vm)[r := Released(old(vm)[r], old(firstFree))]
    {
      ghost var vm0 := vm;
      ChainInside(vm, firstFree, freeChain);
      vm := vm[r := vm[r].(ptr := 0)];
      vm := vm[r := vm[r].(free := true, process := false, file := false)];
      vm := vm[r := vm[r].(next := firstFree)];
      firstFree := r;
      ChainFrame(vm0, vm, old(firstFree), freeChain);
      ChainFrame(vm0, vm, firstOrd, ordChain);
      freeChain := [r] + freeChain;
      assert freeChain[1..] == old(freeChain);
    }

    /** The entry rim_add_mem uses: the first free one, or a new one at the end. */
    method TakeEntry(p: Addr) returns (r: int)
      requires Inv({})
      modifies this`vm, this`firstFree, this`freeChain
      ensures 0 <= r < |vm| && Inv({r})
      ensures vm[r] == Entry(p, vm[r].next, false, false, false, 0)
      ensures if r < |old(vm)| then old(vm)[r].free && |vm| == |old(vm)| else r == |old(vm)| && |vm| == r + 1
      ensures forall i :: 0 <= i < |old(vm)| && i != r ==> vm[i] == old(vm)[i]
    {
      ghost var vm0 := vm;
      ChainInside(vm, firstFree, freeChain);
      ChainInside(vm, firstOrd, ordChain);
      if firstFree != -1 {
        r := firstFree;
        assert freeChain == [r] + freeChain[1..];
        firstFree := vm[firstFree].next;
        freeChain := freeChain[1..];
      } else {
        r := |vm|;
        vm := vm + [Entry(0, 0, false, false, false, 0)];
      }
      vm := vm[r := vm[r].(ptr := p)];
      vm := vm[r := vm[r].(free := false, process := false, file := false)];
      vm := vm[r := vm[r].(ref := 0)];
      ChainFrame(vm0, vm, firstFree, freeChain);
      ChainFrame(vm0, vm, firstOrd, ordChain);
    }

    /** rim_add_mem. */
    method AddMem(p: Addr) returns (r: int)
      requires Inv({})
      modifies this`vm, this`firstFree, this`freeChain, this`firstOrd, this`ordChain
      ensures 0 <= r < |vm| && Inv({})
      ensures vm[r] == Entry(p, vm[r].next, false, mode, false, 0)
      ensures if r < |old(vm)| then old(vm)[r].free && |vm| == |old(vm)| else r == |old(vm)| && |vm| == r + 1
      ensures forall i :: 0 <= i < |old(vm)| && i != r ==> vm[i] == old(vm)[i]
    {
      r := TakeEntry(p);
      if mode {
        MakeProcess(r);
      } else {
        AddOrd(r);
      }
    }

    /** A loose entry becomes process-scoped and needs no chain. */
    method MakeProcess(r: int)
      requires 0 <= r < |vm| && Inv({r})
      modifies this`vm
      ensures Inv({}) && vm == old(vm)[r := old(vm)[r].(process := true)]
    {
      ghost var vm0 := vm;
      vm := vm[r := vm[r].(process := true)];
      ChainFrame(vm0, vm, firstFree, freeChain);
      ChainFrame(vm0, vm, firstOrd, ordChain);
    }

    /** Counts and file marks matter to no chain. */
    method SetCount(r: int, ref: nat, file: bool)
      requires Inv({}) && 0 <= r < |vm|
      modifies this`vm
      ensures Inv({}) && vm == old(vm)[r := old(vm)[r].(ref := ref, file := file)]
    {
      ghost var vm0 := vm;
      vm := vm[r := vm[r].(ref := ref, file := file)];
      ChainFrame(vm0, vm, firstFree, freeChain);
      ChainFrame(vm0, vm, firstOrd, ordChain);
    }

    // ---------- what users call ----------

    /** rim_malloc and rim_calloc; p is what the C allocator returned. */
    method Malloc(p: Addr)
      requires Valid() && p !in ids
      modifies this
      ensures Valid() && View() == Step(old(View()), MemoryBlocks.Malloc(p))
      ensures ids.Keys == old(ids).Keys + {p}
    {
      ghost var vm0 := vm;
      var r := AddMem(p);
      AddKeepsNames(vm0, ids, blocks, vm, r, p);
      ids := ids[p := r];
      blocks := blocks[p := Block(mode, 0, false)];
    }

    /** rim_mem_add_const: a header that names no entry. */
    method AddConst(p: Addr)
      requires Valid() && p !in ids
      modifies this
      ensures Valid() && p in ids && View() == old(View())
    {
      ids := ids[p := CONSTANT];
    }

    /** A live entry's count and file mark change where it stands. */
    method SetFlags(r: int, ref: nat, file: bool)
      requires Valid() && 0 <= r < |vm| && !vm[r].free
      modifies this`vm, this`blocks
      ensures Valid() && vm == old(vm)[r := old(vm)[r].(ref := ref, file := file)]
      ensures blocks == old(blocks)[vm[r].ptr := Block(vm[r].process, ref, file)]
    {
      ghost var vm0 := vm;
      SetCount(r, ref, file);
      FlagsKeepNames(vm0, ids, blocks, vm, r);
      blocks := blocks[vm[r].ptr := BlockOf(vm[r])];
    }

    /** rim_mem_set_status for an open file or directory. */
    method SetFile(p: Addr)
      requires Valid() && p in blocks
      modifies this
      ensures Valid() && View() == Step(old(View()), MemoryBlocks.SetFile(p))
    {
      var r := ids[p];
      SetFlags(r, vm[r].ref, true);
    }

    /** rim_mem_add_ref. The result is false when the reference count is exhausted, which stops
        the request. */
    method AddRef(p: Addr, toProcess: bool) returns (ok: bool)
      requires Valid() && p in ids
      modifies this
      ensures Valid()
      ensures p !in old(blocks) ==> ok && View() == old(View())
      ensures p in old(blocks) ==> (ok <==> Allowed(old(View()), MemoryBlocks.AddRef(p, toProcess)))
      ensures p in old(blocks) && ok ==> View() == Step(old(View()), MemoryBlocks.AddRef(p, toProcess))
    {
      ok := true;
      var ind := ids[p];
      if ind != CONSTANT {
        assert blocks[p] == BlockOf(vm[ind]);
        if !toProcess {
          if !vm[ind].process {
            SetFlags(ind, 1, vm[ind].file);
          } else {
            assert blocks[p := blocks[p]] == blocks;
          }
        } else if !vm[ind].process {
          Promote(p, ind);
        } else if vm[ind].ref >= MAX_REF {
          return false;
        } else {
          SetFlags(ind, vm[ind].ref + 1, vm[ind].file);
        }
      }
    }

    /** An ordinary block leaves its chain and becomes process-scoped with one reference. */
    method Promote(p: Addr, r: int)
      requires Valid() && p in blocks && r == ids[p] && !blocks[p].process
      modifies this`vm, this`firstOrd, this`ids, this`ordChain, this`blocks
      ensures Valid() && blocks == old(blocks)[p := Block(true, 1, old(blocks)[p].file)]
    {
      var at := DelOrd(r);
      assert vm[at].ptr == p && vm[at].file == blocks[p].file;
      MakeCounted(p, at);
    }

    /** A block just taken off the ordinary chain becomes process-scoped. */
    method MakeCounted(p: Addr, at: int)
      requires 0 <= at < |vm| && Inv({at}) && Named(vm, ids, blocks) && !vm[at].free && vm[at].ptr == p
      modifies this`vm, this`blocks
      ensures Valid() && blocks == old(blocks)[p := Block(true, 1, old(vm)[at].file)]
    {
      hide Chain, NoDup;
      ghost var vm1, b := vm, Block(true, 1, vm[at].file);
      MakeProcess(at);
      SetCount(at, 1, vm[at].file);
      FlagsKeepNames(vm1, ids, blocks, vm, at);
      assert BlockOf(vm[at]) == b;
      blocks := blocks[p := b];
    }

    /** rim_mem_dec_process: the last reference makes the block ordinary, and referenced. */
    method DecProcess(p: Addr)
      requires Valid() && p in ids
      modifies this
      ensures Valid()
      ensures p !in old(blocks) ==> View() == old(View())
      ensures p in old(blocks) ==> View() == Step(old(View()), MemoryBlocks.DecProcess(p))
    {
      hide Chain, NoDup;
      var r := ids[p];
      if r != CONSTANT {
        if vm[r].process {
          ghost var b := blocks;
          if vm[r].ref > 0 { SetFlags(r, vm[r].ref - 1, vm[r].file); }
          if vm[r].ref == 0 {
            Demote(p, r);
            assert b[p := Block(true, 0, vm[r].file)][p := blocks[p]] == b[p := blocks[p]];
          }
        } else {
          assert blocks[p := blocks[p]] == blocks;
        }
      }
    }

    /** A process-scoped block goes back to the ordinary chain, marked as referenced. */
    method Demote(p: Addr, r: int)
      requires Valid() && p in blocks && r == ids[p] && 0 <= r < |vm| && vm[r].process
      modifies this
      ensures Valid() && mode == old(mode) && ids == old(ids) && r < |vm| && vm[r].file == old(vm)[r].file
      ensures blocks == old(blocks)[p := Block(false, 1, vm[r].file)]
    {
      hide Chain, NoDup;
      ghost var vm0 := vm;
      vm := vm[r := vm[r].(process := false)];
      ChainFrame(vm0, vm, firstFree, freeChain);
      ChainFrame(vm0, vm, firstOrd, ordChain);
      AddOrd(r);
      SetCount(r, 1, vm[r].file);
      FlagsKeepNames(vm0, ids, blocks, vm, r);
      blocks := blocks[p := BlockOf(vm[r])];
    }

    /** The end of _rim_free: off the chain, memory freed, entry released. */
    method FreeThenRelease(p: Addr, r0: int)
      requires Valid() && p in blocks && r0 == ids[p] && !blocks[p].process
      modifies this`vm, this`firstFree, this`firstOrd, this`ids, this`freeChain, this`ordChain, this`blocks
      ensures Valid() && blocks == old(blocks) - {p}
    {
      hide Chain, NoDup;
      var r := DelOrd(r0);
      assert vm[r].ptr == p;
      ReleaseKeepsNames(vm, ids, blocks, r, firstFree);
      ids := ids - {p};
      Release(r);
      blocks := blocks - {p};
    }

    /** _rim_free. */
    method Free(p: Addr) returns (ghost freed: set<Addr>)
      requires Valid() && p in ids
      modifies this
      ensures Valid()
      ensures p !in old(blocks) ==> View() == old(View()) && freed == {}
      ensures p in old(blocks) ==>
                View() == Step(old(View()), MemoryBlocks.Free(p)) && freed == Freed(old(View()), MemoryBlocks.Free(p))
    {
      freed := {};
      var r := ids[p];
      if r == CONSTANT { return; }
      assert blocks[p] == BlockOf(vm[r]);
      if vm[r].process { return; }
      if vm[r].ref > 0 { return; }
      FreeThenRelease(p, r);
      freed := {p};
    }

    /** The end of rim_free_int: off the chain, entry released, memory freed. */
    method ReleaseThenFree(p: Addr, r0: int)
      requires Valid() && p in blocks && r0 == ids[p] && !blocks[p].process
      modifies this`vm, this`firstFree, this`firstOrd, this`ids, this`freeChain, this`ordChain, this`blocks
      ensures Valid() && blocks == old(blocks) - {p}
    {
      hide Chain, NoDup;
      var r := DelOrd(r0);
      assert vm[r].ptr == p;
      ReleaseKeepsNames(vm, ids, blocks, r, firstFree);
      Release(r);
      ids := ids - {p};
      blocks := blocks - {p};
    }

    /** rim_free_int: an ordinary block is freed whatever its references. */
    method FreeInt(p: Addr) returns (ghost freed: set<Addr>)
      requires Valid() && p in ids && (p in blocks ==> !blocks[p].process)
      modifies this
      ensures Valid()
      ensures p !in old(blocks) ==> View() == old(View()) && freed == {}
      ensures p in old(blocks) ==>
                View() == Step(old(View()), MemoryBlocks.FreeInt(p)) && freed == Freed(old(View()), MemoryBlocks.FreeInt(p))
    {
      freed := {};
      var id := ids[p];
      if id != CONSTANT {
        ReleaseThenFree(p, id);
        freed := {p};
      }
    }

    // ---------- moving and ending ----------

    /** rim_realloc; q is what the C allocator's realloc returned, which has copied the header. A
        constant, such as the empty string, gets a new block. Otherwise the table stays sound exactly
        when a process-scoped block is moved only while process memory is being allocated. */
    method Realloc(p: Addr, q: Addr) returns (ghost freed: set<Addr>)
      requires Valid() && p in ids && (q !in ids || (q == p && p in blocks))
      modifies this
      ensures p !in old(blocks) ==>
                Valid() && View() == Step(old(View()), MemoryBlocks.Malloc(q)) && freed == {}
      ensures p in old(blocks) ==>
                && (Valid() <==> Allowed(old(View()), MemoryBlocks.Realloc(p, q)))
                && (Valid() ==>
                      && View() == Step(old(View()), MemoryBlocks.Realloc(p, q))
                      && freed == Freed(old(View()), MemoryBlocks.Realloc(p, q)))
      ensures mode == old(mode)
    {
      freed := {};
      if ids[p] == CONSTANT {
        Malloc(q);
      } else if q != p {
        freed := {p};
        Relocate(p, q);
      }
    }

    /** The switch between process memory and ordinary memory, rim_mem_process. */
    method SetMode(process: bool)
      requires Valid()
      modifies this`mode
      ensures Valid() && View() == Step(old(View()), MemoryBlocks.SetMode(process))
    {
      mode := process;
    }

    /** rim_realloc when the C allocator had to move the block. */
    method Relocate(p: Addr, q: Addr)
      requires Valid() && p in blocks && q !in ids
      modifies this`vm, this`firstFree, this`firstOrd, this`ids, this`freeChain, this`ordChain, this`blocks
      ensures Valid() <==> (old(blocks)[p].process ==> mode)
      ensures var b := old(blocks)[p];
              blocks == (old(blocks) - {p})[q := Block(mode || b.process, b.ref, false)]
    {
      var r := ids[p];
      ghost var b0 := blocks;
      assert blocks[p] == BlockOf(vm[r]);
      var isProcess := vm[r].process;
      Move(p, q, r);
      var oldRef := vm[r].ref;
      Detach(q, r);
      Reattach(q, oldRef, isProcess);
      MovedBlocks(b0, p, q, Block(mode || isProcess, oldRef, false));
    }

    lemma {:induction false} MovedBlocks(b: map<Addr, Block>, p: Addr, q: Addr, c: Block)
      requires p in b && q !in b
      ensures ((b - {p})[q := b[p]] - {q})[q := c] == (b - {p})[q := c]
    {
    }

    /** The C allocator moves a block together with its header. */
    method Move(p: Addr, q: Addr, r: int)
      requires Valid() && p in blocks && r == ids[p] && q !in ids
      modifies this`vm, this`ids, this`blocks
      ensures Valid() && q in blocks && q in ids && ids[q] == r && 0 <= r < |vm|
      ensures 0 <= r < |old(vm)| && vm[r].ref == old(vm)[r].ref
      ensures blocks == (old(blocks) - {p})[q := old(blocks)[p]]
    {
      MoveKeepsNames(vm, ids, blocks, p, q);
      ghost var vm0 := vm;
      ids := (ids - {p})[q := ids[p]];
      vm := vm[r := vm[r].(ptr := q)];
      blocks := (blocks - {p})[q := blocks[p]];
      ChainFrame(vm0, vm, firstFree, freeChain);
      ChainFrame(vm0, vm, firstOrd, ordChain);
    }

    /** The moved block's entry leaves its chain, if it is on one, and is released. */
    method Detach(q: Addr, r0: int)
      requires Valid() && q in blocks && r0 == ids[q]
      modifies this`vm, this`firstFree, this`firstOrd, this`ids, this`freeChain, this`ordChain, this`blocks
      ensures Inv({}) && Named(vm, ids - {q}, blocks) && blocks == old(blocks) - {q}
    {
      hide Chain, NoDup;
      var r := r0;
      if !vm[r].process { r := DelOrd(r); }
      assert Inv({r});
      ReleaseKeepsNames(vm, ids, blocks, r, firstFree);
      Release(r);
      blocks := blocks - {q};
    }

    /** A new entry for the moved block, with its scope and count carried over. Off process mode
        the entry is already on the ordinary chain when its scope is restored. */
    method Reattach(q: Addr, oldRef: nat, isProcess: bool)
      requires Inv({}) && Named(vm, ids - {q}, blocks)
      modifies this`vm, this`firstFree, this`firstOrd, this`ids, this`freeChain, this`ordChain, this`blocks
      ensures Valid() <==> (isProcess ==> mode)
      ensures blocks == old(blocks)[q := Block(mode || isProcess, oldRef, false)]
    {
      hide Chain, NoDup;
      ghost var vm1, ids1 := vm, ids - {q};
      var r := AddMem(q);
      ids := ids[q := r];
      SetCount(r, oldRef, vm[r].file);
      assert r in ordChain <==> !mode;
      assert ids == ids1[q := r];
      RestoreScope(r, isProcess);
      AddKeepsNames(vm1, ids1, blocks, vm, r, q);
      ghost var b := Block(mode || isProcess, oldRef, false);
      assert BlockOf(vm[r]) == b;
      blocks := blocks[q := b];
    }

    /** Setting the scope flag is harmless exactly when the entry is not on the ordinary chain. */
    method RestoreScope(r: int, isProcess: bool)
      requires Inv({}) && 0 <= r < |vm| && !vm[r].free
      modifies this`vm
      ensures vm == old(vm)[r := old(vm)[r].(process := old(vm)[r].process || isProcess)]
      ensures Inv({}) <==> (isProcess ==> old(vm)[r].process)
    {
      ghost var vm2 := vm;
      if isProcess { vm := vm[r := vm[r].(process := true)]; }
      ChainFrame(vm2, vm, firstFree, freeChain);
      ChainFrame(vm2, vm, firstOrd, ordChain);
    }

    /** rim_done: every ordinary block is freed, or closed when it is an open file or directory,
        and its entry released; process-scoped entries are never looked at. */
    method Done() returns (ghost freed: set<Addr>)
      requires Valid()
      modifies this
      ensures Valid() && View() == Step(old(View()), MemoryBlocks.Done) && freed == Freed(old(View()), MemoryBlocks.Done)
    {
      hide Partitioned, NoDup;
      freed := {};
      var i := firstOrd;
      ghost var h := View();
      while i != -1
        invariant Chain(vm, firstFree, freeChain) && Chain(vm, i, ordChain)
        invariant Partitioned(vm, freeChain, ordChain, {}) && Named(vm, ids, blocks)
        invariant forall p :: p in blocks ==> p in h.blocks && blocks[p] == h.blocks[p]
        invariant forall p :: p in h.blocks && h.blocks[p].process ==> p in blocks
        invariant forall p :: p in freed <==> p in h.blocks && p !in blocks && !h.blocks[p].file
        invariant mode == h.mode
        decreases |ordChain|
      {
        var p, file := vm[i].ptr, vm[i].file;
        var j := ReleaseOrdinary(i);
        if !file { freed := freed + {p}; }
        i := j;
      }
      firstOrd := -1;
      AllProcess();
      DoneIsStep(h, blocks, freed);
    }

    lemma {:induction false} DoneIsStep(h: Heap, b: map<Addr, Block>, freed: set<Addr>)
      requires forall p :: p in b ==> p in h.blocks && b[p] == h.blocks[p] && b[p].process
      requires forall p :: p in h.blocks && h.blocks[p].process ==> p in b
      requires forall p :: p in freed <==> p in h.blocks && p !in b && !h.blocks[p].file
      ensures Heap(b, h.mode) == Step(h, MemoryBlocks.Done) && freed == Freed(h, MemoryBlocks.Done)
    {
      var s := Step(h, MemoryBlocks.Done).blocks;
      assert forall p :: p in b <==> p in s;
      forall p | p in b ensures b[p] == s[p] {
      }
      assert b == s;
      assert forall p :: p in freed <==> p in Freed(h, MemoryBlocks.Done);
    }

    lemma {:induction false} AllProcess()
      requires ordChain == [] && Partitioned(vm, freeChain, [], {}) && Named(vm, ids, blocks)
      ensures forall p :: p in blocks ==> blocks[p].process
    {
    }

    /** One turn of the loop of rim_done. */
    method ReleaseOrdinary(i: int) returns (j: int)
      requires Chain(vm, firstFree, freeChain) && Chain(vm, i, ordChain) && i != -1
      requires Partitioned(vm, freeChain, ordChain, {}) && Named(vm, ids, blocks)
      modifies this`vm, this`firstFree, this`ids, this`freeChain, this`ordChain, this`blocks
      ensures Chain(vm, firstFree, freeChain) && Chain(vm, j, ordChain) && |ordChain| < |old(ordChain)|
      ensures Partitioned(vm, freeChain, ordChain, {}) && Named(vm, ids, blocks)
      ensures 0 <= i < |old(vm)| &&
              var e := old(vm)[i];
              && !e.process && e.ptr in old(blocks) && old(blocks)[e.ptr] == BlockOf(e)
              && blocks == old(blocks) - {e.ptr}
    {
      ghost var vm0 := vm;
      assert i in ordChain;
      ChainInside(vm, firstFree, freeChain);
      ReleaseKeepsNames(vm, ids, blocks, i, firstFree);
      HeadLeaves(vm, freeChain, ordChain);
      j := vm[i].next;
      blocks := blocks - {vm[i].ptr};
      ids := ids - {vm[i].ptr};
      vm := vm[i := Released(vm[i], firstFree)];
      firstFree := i;
      ordChain := ordChain[1..];
      ChainFrame(vm0, vm, old(firstFree), freeChain);
      ChainFrame(vm0, vm, j, ordChain);
      freeChain := [i] + freeChain;
      assert freeChain[1..] == old(freeChain);
    }
  }

  /** A run that breaks the table: a block of process memory is moved once the mode is left. */
  method MoveOutsideMode() returns (m: Manager)
    ensures fresh(m) && !m.Valid()
  {
    hide Chain, Partitioned, Named;
    m := new Manager();
    m.SetMode(true);
    m.Malloc(1);
    m.SetMode(false);
    assert m.blocks == map[1 := Block(true, 0, false)] && m.ids.Keys == {1};
    assert !Allowed(m.View(), MemoryBlocks.Realloc(1, 2));
    var _ := m.Realloc(1, 2);
  }
}
