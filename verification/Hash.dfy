/** hash.c: a chained hash table that is always a finite map, and its deleting traversal. */
module Hash {
  import opened Bytes
  import opened Addresses
  import opened HashChains

  datatype Status = Okay | InfoExist | ErrExist

  const MIN_BUCKETS := 256

  class HashTable {
    var table: array<Ptr>
    var nodes: Nodes
    var tot: int
    var hits: nat
    var lookups: nat
    var dnext: nat
    var dcurr: Ptr
    var dprev: Ptr

    /** The map the table stands for, and the entries of each bucket in order. */
    ghost var contents: map<Key, int>
    ghost var lists: seq<seq<Ptr>>
    /** A traversal since the last rewind: its place in bucket dnext and the keys to come. */
    ghost var walking: bool
    ghost var pos: nat
    ghost var rest: set<Key>

    ghost predicate Sound()
      reads this, table
    {
      Table(nodes, table[..], lists, contents) && tot == |contents| && 0 < |lists| == table.Length
    }

    ghost predicate Walks()
      reads this
    {
      && 0 < |lists| && dnext <= |lists|
      && IsRest(nodes, lists, contents, dnext, pos, rest)
      && (dnext == |lists| ==> rest == {})
      && (dnext < |lists| ==>
            && pos <= |lists[dnext]| && dcurr == At(lists[dnext], pos)
            && dprev == if pos == 0 then NULL else lists[dnext][pos - 1])
    }

    ghost predicate Valid()
      reads this, table
    {
      Sound() && (walking ==> Walks())
    }

    /** rim_create_hash. */
    constructor (size: int)
      ensures Valid() && contents == map[] && fresh(table)
      ensures table.Length == Max(size, MIN_BUCKETS) && hits == lookups == 0
    {
      var n := if size < MIN_BUCKETS then MIN_BUCKETS else size;
      table := new Ptr[n](_ => NULL);
      nodes := map[];
      tot, hits, lookups := 0, 0, 0;
      dnext, dcurr, dprev := 0, NULL, NULL;
      contents := map[];
      lists := seq(n, _ => []);
      walking, pos, rest := false, 0, {};
      new;
      assert forall b :: 0 <= b < n ==> table[..][b] == NULL && lists[b] == [];
    }

    method TakeCounters(h: nat, l: nat)
      requires Valid()
      modifies this`hits, this`lookups
      ensures Valid() && hits == h && lookups == l
    {
      hide Table, IsRest;
      hits, lookups := h, l;
    }

    /** rim_rewind_hash. */
    method Rewind()
      requires Valid()
      modifies this`dnext, this`dcurr, this`dprev, this`walking, this`pos, this`rest
      ensures Valid() && walking && rest == contents.Keys
    {
      hide Bucket, Table, IsRest, BucketOk;
      dnext := 0;
      dcurr := table[dnext];
      dprev := NULL;
      walking, pos, rest := true, 0, contents.Keys;
      RestAtStart(nodes, table[..], lists, contents);
      TableBucket(nodes, table[..], lists, contents, 0);
    }

    /** The first part of rim_del_hash_entry: the entry is taken out of its list and freed. */
    method Unlink(todel: Ptr, prev: Ptr, hashind: int, ghost b: nat, ghost i: nat) returns (next: Ptr)
      requires Sound() && b < |lists| && i < |lists[b]| && todel == lists[b][i]
      requires prev == if i == 0 then NULL else lists[b][i - 1]
      requires hashind == -1 || hashind == b
      modifies this`nodes, table
      ensures todel in old(nodes) && (i > 0 ==> prev in old(nodes)) && next == old(nodes)[todel].next
      ensures nodes == UnlinkedNodes(old(nodes), lists[b], i)
      ensures table[..] == if i == 0 then old(table[..])[b := next] else old(table[..])
    {
      hide Bucket, BucketOk;
      InTable(nodes, table[..], lists, contents, b, i);
      next := nodes[todel].next;
      if prev == NULL {
        var h := hashind;
        if h == -1 { h := ComputeHash(nodes[todel].key, table.Length); }
        table[h] := next;
      } else {
        nodes := nodes[prev := nodes[prev].(next := next)];
      }
      nodes := nodes - {todel};
    }

    /** rim_del_hash_entry. */
    method DelEntry(todel: Ptr, prev: Ptr, hashind: int, ghost b: nat, ghost i: nat)
      requires Sound() && b < |lists| && i < |lists[b]| && todel == lists[b][i]
      requires prev == if i == 0 then NULL else lists[b][i - 1]
      requires hashind == -1 || hashind == b
      modifies this`nodes, this`tot, this`dcurr, this`contents, this`lists, table
      ensures Sound() && todel in old(nodes) && (i > 0 ==> prev in old(nodes))
      ensures var key := old(nodes)[todel].key;
        && key in old(contents) && contents == old(contents) - {key}
        && nodes == UnlinkedNodes(old(nodes), old(lists)[b], i)
        && lists == old(lists)[b := Without(old(lists)[b], i)]
        && dcurr == if old(dcurr) == todel then old(nodes)[todel].next else old(dcurr)
    {
      hide Table, UnlinkedNodes, Without;
      TableRemove(nodes, table[..], lists, contents, b, i);
      ghost var key := nodes[todel].key;
      var next := Unlink(todel, prev, hashind, b, i);
      lists := lists[b := Without(lists[b], i)];
      if dcurr == todel { dcurr := next; }
      assert (contents - {key}).Keys == contents.Keys - {key};
      tot := tot - 1;
      contents := contents - {key};
    }

    /** The search of a bucket: the entry with the key, or NULL, and the one before it. Only a search
        of rim_find_hash counts the entries it looks at. */
    method Lookup(key: Key, hashind: nat, counted: bool) returns (prev: Ptr, curr: Ptr, ghost i: nat)
      requires Sound() && hashind == Bucket(key, |lists|)
      modifies this`lookups
      ensures i <= |lists[hashind]| && curr == At(lists[hashind], i)
      ensures prev == if i == 0 then NULL else lists[hashind][i - 1]
      ensures curr == NULL <==> key !in contents
      ensures curr != NULL ==> i < |lists[hashind]| && curr in nodes && nodes[curr].key == key && nodes[curr].data == contents[key]
      ensures lookups == old(lookups) + if !counted then 0 else if curr == NULL then i else i + 1
    {
      hide Bucket, BucketOk, Table;
      TableBucket(nodes, table[..], lists, contents, hashind);
      prev, curr, i := NULL, table[hashind], 0;
      ghost var l, ns, tb := lists[hashind], nodes, table[..];
      while curr != NULL
        invariant i <= |l| && curr == At(l, i) && prev == if i == 0 then NULL else l[i - 1]
        invariant forall j :: 0 <= j < i ==> l[j] in ns && ns[l[j]].key != key
        invariant lookups == old(lookups) + if counted then i else 0
        decreases |l| - i
      {
        InTable(ns, tb, lists, contents, hashind, i);
        if counted { lookups := lookups + 1; }
        if key == nodes[curr].key { break; }
        prev, curr := curr, nodes[curr].next;
        i := i + 1;
      }
      if i < |l| { InTable(ns, tb, lists, contents, hashind, i); }
      FoundOrNot(ns, tb, lists, contents, key, i);
    }

    /** rim_find_hash. Without a match the data is the empty string, here the number passed as one. */
    method FindHash(key: Key, del: bool, none: int) returns (data: int, found: Status)
      requires Valid()
      modifies this`nodes, this`tot, this`dcurr, this`contents, this`lists, this`walking, this`hits, this`lookups, table
      ensures Valid() && hits == old(hits) + 1
      ensures found == if key in old(contents) then Okay else ErrExist
      ensures data == if key in old(contents) then old(contents)[key] else none
      ensures contents == if del then old(contents) - {key} else old(contents)
      ensures !del ==> walking == old(walking)
    {
      hide Bucket, BucketOk, Table, UnlinkedNodes, IsRest, Without;
      hits := hits + 1;
      var hashind := ComputeHash(key, table.Length);
      var prev, curr, i := Lookup(key, hashind, true);
      data, found := none, ErrExist;
      if curr != NULL { data, found := nodes[curr].data, Okay; }
      if del { DeleteFound(key, prev, curr, hashind, i); }
    }

    /** The end of rim_find_hash with deletion. */
    method DeleteFound(key: Key, prev: Ptr, curr: Ptr, hashind: nat, ghost i: nat)
      requires Valid() && hashind < |lists| && (curr == NULL <==> key !in contents)
      requires curr != NULL ==>
        && i < |lists[hashind]| && curr == lists[hashind][i] && curr in nodes && nodes[curr].key == key
        && prev == if i == 0 then NULL else lists[hashind][i - 1]
      modifies this`nodes, this`tot, this`dcurr, this`contents, this`lists, this`walking, table
      ensures Valid() && contents == old(contents) - {key}
    {
      hide Bucket, BucketOk, Table, UnlinkedNodes, IsRest, Without;
      walking := false;
      if curr == NULL {
        assert contents - {key} == contents;
      } else {
        DelEntry(curr, prev, hashind, hashind, i);
      }
    }

    /** The part of rim_add_hash that puts a new entry at the head of a bucket. */
    method Prepend(key: Key, data: int, hashind: nat)
      requires Sound() && key !in contents && hashind == Bucket(key, |lists|)
      modifies this`nodes, this`tot, this`contents, this`lists, table
      ensures Sound() && contents == old(contents)[key := data]
    {
      hide Bucket, BucketOk, Table;
      TableBucket(nodes, table[..], lists, contents, hashind);
      FreshAddress(nodes.Keys);
      var p: Ptr :| p != NULL && p !in nodes.Keys;
      TableAdd(nodes, table[..], lists, contents, key, data, p);
      nodes := nodes[p := Node(key, data, table[hashind])];
      lists := lists[hashind := [p] + lists[hashind]];
      table[hashind] := p;
      tot := tot + 1;
      assert contents[key := data].Keys == contents.Keys + {key};
      contents := contents[key := data];
    }

    /** rim_add_hash. The old data is asked for or not; an existing key keeps its place. */
    method AddHash(key: Key, data: int, wantOld: bool) returns (old_data: int, st: Status)
      requires Valid()
      modifies this`nodes, this`tot, this`contents, this`lists, this`walking, this`lookups, table
      ensures Valid() && contents == old(contents)[key := data]
      ensures st == if key in old(contents) && wantOld then InfoExist else Okay
      ensures key in old(contents) ==> old_data == old(contents)[key]
      ensures lookups == old(lookups)
    {
      hide Bucket, BucketOk, Table, IsRest;
      old_data, st := data, Okay;
      walking := false;
      var hashind := ComputeHash(key, table.Length);
      var prev, bucket, i := Lookup(key, hashind, false);
      if bucket == NULL {
        Prepend(key, data, hashind);
      } else {
        TableReplace(nodes, table[..], lists, contents, hashind, i, data);
        old_data := nodes[bucket].data;
        nodes := nodes[bucket := nodes[bucket].(data := data)];
        if wantOld { st := InfoExist; }
        assert contents[key := data].Keys == contents.Keys;
        contents := contents[key := data];
      }
    }

    /** The scan for the next bucket that is not empty. It tells whether there is one. */
    method NextBucket() returns (more: bool)
      requires Valid() && walking && dnext < table.Length && dcurr == NULL
      modifies this`dnext, this`dcurr, this`dprev, this`pos
      ensures Valid() && walking && rest == old(rest)
      ensures more <==> dcurr != NULL
      ensures more ==> dnext < table.Length
      ensures !more ==> dnext == table.Length && rest == {}
    {
      hide Bucket, Table;
      WalkEnds(nodes, table[..], lists, contents, dnext, pos);
      dprev := NULL;
      while true
        invariant dcurr == NULL && dprev == NULL && dnext < table.Length && pos >= |lists[dnext]|
        invariant IsRest(nodes, lists, contents, dnext, pos, rest)
        decreases table.Length - dnext
      {
        RestSkips(nodes, table[..], lists, contents, dnext, pos, rest);
        dnext := dnext + 1;
        pos := 0;
        if dnext == table.Length { return false; }
        TableBucket(nodes, table[..], lists, contents, dnext);
        dcurr := table[dnext];
        if dcurr != NULL { return true; }
        WalkEnds(nodes, table[..], lists, contents, dnext, pos);
      }
    }

    /** rim_next_hash. */
    method NextHash(del: bool) returns (st: Status, key: Key, data: int)
      requires Valid() && walking
      modifies this`nodes, this`tot, this`contents, this`lists, this`dnext, this`dcurr, this`dprev, this`pos, this`rest, table
      ensures Valid() && walking
      ensures Answers(old(contents), old(rest), del, st, key, data, contents, rest)
    {
      hide Bucket, Table, BucketOk, IsRest;
      key, data := [], 0;
      if dnext == table.Length { return ErrExist, key, data; }
      if dcurr == NULL {
        var more := NextBucket();
        if !more { return ErrExist, key, data; }
      }
      CurrentEntry(nodes, table[..], lists, contents, dnext, pos, rest);
      st, key, data := Okay, nodes[dcurr].key, nodes[dcurr].data;
      if del { DeleteCurrent(); } else { PassCurrent(); }
    }

    /** The entry at the cursor is deleted, and the cursor is at the one behind it. */
    method DeleteCurrent()
      requires Valid() && walking && dnext < table.Length && pos < |lists[dnext]|
      modifies this`nodes, this`tot, this`contents, this`lists, this`dcurr, this`rest, table
      ensures Valid() && old(dcurr) in old(nodes)
      ensures var key := old(nodes)[old(dcurr)].key;
        contents == old(contents) - {key} && rest == old(rest) - {key}
    {
      hide Bucket, Table, BucketOk, IsRest, UnlinkedNodes, Holds;
      InTable(nodes, table[..], lists, contents, dnext, pos);
      RestDeletes(nodes, table[..], lists, contents, dnext, pos, rest);
      rest := rest - {nodes[dcurr].key};
      DelEntry(dcurr, dprev, dnext, dnext, pos);
    }

    /** The cursor moves on by one entry. */
    method PassCurrent()
      requires Valid() && walking && dnext < table.Length && pos < |lists[dnext]|
      modifies this`dcurr, this`dprev, this`pos, this`rest
      ensures Valid() && old(dcurr) in nodes && rest == old(rest) - {nodes[old(dcurr)].key}
    {
      hide Bucket, Table, BucketOk, IsRest, Holds;
      InTable(nodes, table[..], lists, contents, dnext, pos);
      RestKeeps(nodes, table[..], lists, contents, dnext, pos, rest);
      rest := rest - {nodes[dcurr].key};
      dprev := dcurr;
      dcurr := nodes[dcurr].next;
      pos := pos + 1;
    }
  }

  /** One answer of the traversal: any key still to come, with its data, and the map without it if
      it was to be deleted; or the end, when none is to come. */
  ghost predicate Answers(m: map<Key, int>, rest: set<Key>, del: bool, st: Status, key: Key, data: int,
                          m2: map<Key, int>, rest2: set<Key>)
  {
    if st == Okay then
      && key in rest && key in m && data == m[key]
      && rest2 == rest - {key} && m2 == if del then m - {key} else m
    else
      st == ErrExist && rest == {} && rest2 == rest && m2 == m
  }

  /** The entry at a cursor is in the map, and its key is still to come. */
  lemma CurrentEntry(ns: Nodes, table: seq<Ptr>, lists: seq<seq<Ptr>>, m: map<Key, int>, b: nat, i: nat, rest: set<Key>)
    requires Table(ns, table, lists, m) && b < |lists| && i < |lists[b]| && IsRest(ns, lists, m, b, i, rest)
    ensures lists[b][i] != NULL && Holds(ns, lists[b][i], m) && ns[lists[b][i]].key in rest
  {
    InTable(ns, table, lists, m, b, i);
    RestKeeps(ns, table, lists, m, b, i, rest);
  }

  /** A cursor that is NULL is behind the last entry of its bucket. */
  lemma WalkEnds(ns: Nodes, table: seq<Ptr>, lists: seq<seq<Ptr>>, m: map<Key, int>, b: nat, i: nat)
    requires Table(ns, table, lists, m) && b < |lists|
    ensures At(lists[b], i) == NULL <==> i >= |lists[b]|
  {
    if i < |lists[b]| { InTable(ns, table, lists, m, b, i); }
  }

  lemma TableBucket(ns: Nodes, table: seq<Ptr>, lists: seq<seq<Ptr>>, m: map<Key, int>, b: nat)
    requires Table(ns, table, lists, m) && b < |lists|
    ensures |table| == |lists| && table[b] == At(lists[b], 0)
  {
    hide Bucket;
    assert BucketOk(ns, table[b], lists[b], m, b, |lists|);
  }

  /** Where the search of a bucket stops tells whether the key is in the map. */
  lemma FoundOrNot(ns: Nodes, table: seq<Ptr>, lists: seq<seq<Ptr>>, m: map<Key, int>, k: Key, i: nat)
    requires Table(ns, table, lists, m)
    requires var l := lists[Bucket(k, |lists|)];
      && i <= |l| && (forall j :: 0 <= j < i ==> l[j] in ns && ns[l[j]].key != k)
      && (i < |l| ==> l[i] in ns && ns[l[i]].key == k)
    ensures var l := lists[Bucket(k, |lists|)];
      if i < |l| then k in m && m[k] == ns[l[i]].data else k !in m
  {
    hide Bucket;
    var b := Bucket(k, |lists|);
    assert BucketOk(ns, table[b], lists[b], m, b, |lists|);
    InBucket(ns, table[b], lists[b], m, b, |lists|, k);
    if i < |lists[b]| { assert Holds(ns, lists[b][i], m); }
  }

  // ---------- whole traversals ----------

  /** A traversal: the map and the keys to come before each call, which calls delete, and what
      each call gives. The last call gives the end. */
  datatype Answer = Answer(st: Status, key: Key, data: int)

  ghost predicate Traversal(ms: seq<map<Key, int>>, rests: seq<set<Key>>, dels: seq<bool>, ans: seq<Answer>) {
    && |ans| == |dels| > 0 && |ms| == |rests| == |dels| + 1
    && (forall i :: 0 <= i < |ans| ==>
          Answers(ms[i], rests[i], dels[i], ans[i].st, ans[i].key, ans[i].data, ms[i + 1], rests[i + 1]))
    && (forall i :: 0 <= i < |ans| - 1 ==> ans[i].st == Okay)
    && ans[|ans| - 1].st == ErrExist
  }

  /** Some call before the end gives k; or gives and deletes it. */
  ghost predicate Given(ans: seq<Answer>, k: Key) {
    exists i :: 0 <= i < |ans| - 1 && ans[i].key == k
  }

  ghost predicate Deleted(ans: seq<Answer>, dels: seq<bool>, k: Key)
    requires |ans| == |dels|
  {
    exists i :: 0 <= i < |ans| - 1 && ans[i].key == k && dels[i]
  }

  lemma FirstOrLater(ans: seq<Answer>, dels: seq<bool>, k: Key)
    requires |ans| == |dels| > 1
    ensures Given(ans, k) <==> ans[0].key == k || Given(ans[1..], k)
    ensures Deleted(ans, dels, k) <==> (ans[0].key == k && dels[0]) || Deleted(ans[1..], dels[1..], k)
  {
    var ans', dels' := ans[1..], dels[1..];
    if i :| 0 <= i < |ans| - 1 && ans[i].key == k { assert i > 0 ==> ans'[i - 1].key == k; }
    if i :| 0 <= i < |ans'| - 1 && ans'[i].key == k { assert ans[i + 1].key == k; }
    if i :| 0 <= i < |ans| - 1 && ans[i].key == k && dels[i] { assert i > 0 ==> ans'[i - 1].key == k && dels'[i - 1]; }
    if i :| 0 <= i < |ans'| - 1 && ans'[i].key == k && dels'[i] { assert ans[i + 1].key == k && dels[i + 1]; }
  }

  /** From a fresh rewind, each entry of the hash is given exactly once with its data before the
      end is, and the hash then holds exactly the entries given without deleting them. */
  lemma {:induction false} TraversalGivesEachOnce(ms: seq<map<Key, int>>, rests: seq<set<Key>>, dels: seq<bool>, ans: seq<Answer>)
    requires Traversal(ms, rests, dels, ans) && rests[0] <= ms[0].Keys
    ensures forall k :: k in rests[0] <==> Given(ans, k)
    ensures forall i, j :: 0 <= i < j < |ans| - 1 ==> ans[i].key != ans[j].key
    ensures forall i :: 0 <= i < |ans| - 1 ==> ans[i].key in ms[0] && ans[i].data == ms[0][ans[i].key]
    ensures forall k :: k in ms[|ms| - 1] <==> k in ms[0] && !Deleted(ans, dels, k)
    ensures forall k :: k in ms[|ms| - 1] ==> ms[|ms| - 1][k] == ms[0][k]
    decreases |ans|
  {
    assert Answers(ms[0], rests[0], dels[0], ans[0].st, ans[0].key, ans[0].data, ms[1], rests[1]);
    if |ans| > 1 {
      var ms', rests', dels', ans' := ms[1..], rests[1..], dels[1..], ans[1..];
      TraversalTail(ms, rests, dels, ans);
      TraversalGivesEachOnce(ms', rests', dels', ans');
      hide Given, Deleted, Traversal;
      assert ms'[|ms'| - 1] == ms[|ms| - 1] && ms'[0] == ms[1];
      forall k: Key
        ensures k in rests[0] <==> Given(ans, k)
        ensures k in ms[|ms| - 1] <==> k in ms[0] && !Deleted(ans, dels, k)
        ensures k in ms[|ms| - 1] ==> k in ms'[0] && k in ms[0] && ms[|ms| - 1][k] == ms'[0][k] == ms[0][k]
      {
        FirstOrLater(ans, dels, k);
        NeverDeletedLater(rests', dels', ans', k);
      }
      forall i, j | 0 <= i < j < |ans| - 1 ensures ans[i].key != ans[j].key {
        assert ans[j] == ans'[j - 1];
        if i == 0 { GivenAt(ans', j - 1); } else { assert ans[i] == ans'[i - 1]; }
      }
      forall i | 0 <= i < |ans| - 1 ensures ans[i].key in ms[0] && ans[i].data == ms[0][ans[i].key] {
        if i > 0 { assert ans[i] == ans'[i - 1]; GivenAt(ans', i - 1); }
      }
    }
  }

  lemma GivenAt(ans: seq<Answer>, i: nat)
    requires i < |ans| - 1
    ensures Given(ans, ans[i].key)
  {
  }

  /** What is not to come is not deleted. */
  lemma NeverDeletedLater(rests: seq<set<Key>>, dels: seq<bool>, ans: seq<Answer>, k: Key)
    requires |ans| == |dels| && |rests| > 0 && (k in rests[0] <==> Given(ans, k))
    ensures Deleted(ans, dels, k) ==> k in rests[0]
  {
  }

  lemma TraversalTail(ms: seq<map<Key, int>>, rests: seq<set<Key>>, dels: seq<bool>, ans: seq<Answer>)
    requires Traversal(ms, rests, dels, ans) && |ans| > 1
    ensures Traversal(ms[1..], rests[1..], dels[1..], ans[1..])
  {
    hide Answers;
    var ms', rests', dels', ans' := ms[1..], rests[1..], dels[1..], ans[1..];
    forall i | 0 <= i < |ans'|
      ensures Answers(ms'[i], rests'[i], dels'[i], ans'[i].st, ans'[i].key, ans'[i].data, ms'[i + 1], rests'[i + 1])
    {
      assert Answers(ms[i + 1], rests[i + 1], dels[i + 1], ans[i + 1].st, ans[i + 1].key, ans[i + 1].data, ms[i + 2], rests[i + 2]);
    }
  }

  // ---------- resizing ----------

  /** What is left of m in the traversal of h is what is not yet in nh. */
  ghost predicate Copying(m: map<Key, int>, rest: set<Key>, copied: map<Key, int>) {
    rest <= m.Keys && copied.Keys == m.Keys - rest && forall k :: k in copied ==> copied[k] == m[k]
  }

  lemma CopyOne(m: map<Key, int>, rest: set<Key>, copied: map<Key, int>, key: Key)
    requires Copying(m, rest, copied) && key in rest
    ensures key in m && Copying(m, rest - {key}, copied[key := m[key]]) && |rest - {key}| < |rest|
  {
    assert (rest - {key}) + {key} == rest;
  }

  /** One turn of the loop of rim_resize_hash. */
  method CopyNext(h: HashTable, nh: HashTable, ghost m: map<Key, int>) returns (more: bool)
    requires h.Valid() && h.walking && h.contents == m
    requires nh.Valid() && nh != h && nh.table != h.table && Copying(m, h.rest, nh.contents)
    modifies h`nodes, h`tot, h`contents, h`lists, h`dnext, h`dcurr, h`dprev, h`pos, h`rest, h.table
    modifies nh`nodes, nh`tot, nh`contents, nh`lists, nh`walking, nh`lookups, nh.table
    ensures h.Valid() && h.walking && h.contents == m
    ensures nh.Valid() && Copying(m, h.rest, nh.contents)
    ensures if more then |h.rest| < |old(h.rest)| else h.rest == {}
  {
    hide Table, IsRest, Copying;
    ghost var rest0, copied := h.rest, nh.contents;
    var st, key, data := h.NextHash(false);
    more := st == Okay;
    if more {
      CopyOne(m, rest0, copied, key);
      var _, _ := nh.AddHash(key, data, false);
    }
  }

  /** The loop of rim_resize_hash: every entry of h is added to the new table. */
  method CopyAll(h: HashTable, nh: HashTable)
    requires h.Valid() && h.walking && h.rest == h.contents.Keys
    requires nh.Valid() && nh.contents == map[] && nh != h && nh.table != h.table
    modifies h`nodes, h`tot, h`contents, h`lists, h`dnext, h`dcurr, h`dprev, h`pos, h`rest, h.table
    modifies nh`nodes, nh`tot, nh`contents, nh`lists, nh`walking, nh`lookups, nh.table
    ensures nh.Valid() && nh.contents == old(h.contents)
  {
    hide Table, IsRest;
    ghost var m := h.contents;
    var more := true;
    while more
      invariant h.Valid() && h.walking && h.contents == m
      invariant nh.Valid() && Copying(m, h.rest, nh.contents)
      invariant !more ==> h.rest == {}
      decreases |h.rest|, more
    {
      more := CopyNext(h, nh, m);
    }
    assert nh.contents == m;
  }

  /** rim_resize_hash: the new table takes over the entries of h and its counters, and stands for
      the same map, whatever its size. */
  method ResizeHash(h: HashTable, newsize: int) returns (nh: HashTable)
    requires h.Valid()
    modifies h, h.table
    ensures fresh(nh) && fresh(nh.table) && nh.Valid()
    ensures nh.contents == old(h.contents) && nh.tot == old(h.tot)
    ensures nh.table.Length == Max(newsize, MIN_BUCKETS)
    ensures nh.hits == old(h.hits) && nh.lookups == old(h.lookups)
  {
    hide Table, IsRest;
    nh := new HashTable(newsize);
    h.Rewind();
    CopyAll(h, nh);
    nh.TakeCounters(h.hits, h.lookups);
  }
}
