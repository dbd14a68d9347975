/** hash.c: the buckets of a hash table as chains of entries, and the finite map they stand for. */
module HashChains {
  import opened Bytes
  import opened Addresses

  /** rim_hash_table. */
  datatype Node = Node(key: Key, data: int, next: Ptr)

  type Nodes = map<Ptr, Node>

  // ---------- FNV-1a ----------

  const FNV_PRIME: bv32 := 16777619
  const FNV_BASIS: bv32 := 2166136261

  /** A char as the exclusive-or sees it: signed, and widened to 32 bits with its sign. */
  function Widened(c: byte): bv32 {
    if c < 128 then c as bv32 else 0xFFFF_FF00 | (c as bv32)
  }

  /** RIM_FNVCOMP. */
  function FnvStep(h: bv32, c: byte): bv32 {
    (h ^ Widened(c)) * FNV_PRIME
  }

  function Fnv(key: Bytes): bv32 {
    if key == [] then FNV_BASIS else FnvStep(Fnv(key[..|key| - 1]), key[|key| - 1])
  }

  lemma FnvFirst(c: byte)
    ensures Fnv([c]) == FnvStep(FNV_BASIS, c)
  {
    assert [c][..0] == [];
  }

  lemma FnvAppend(d: Bytes, c: byte)
    ensures Fnv(d + [c]) == FnvStep(Fnv(d), c)
  {
    hide FnvStep;
    assert (d + [c])[..|d|] == d;
  }

  /** The steps below. */
  lemma FnvStepA()
    ensures FnvStep(0x811C_9DC5, 97) == 0xE40C_292C
  {
  }

  lemma FnvStepSigned()
    ensures FnvStep(0x811C_9DC5, 0xC3) == 0xC5F3_4F72
  {
  }

  lemma FnvStepsFoo()
    ensures FnvStep(0x811C_9DC5, 102) == 0xE30C_2799 && FnvStep(0xE30C_2799, 111) == 0x6222_E842
    ensures FnvStep(0x6222_E842, 111) == 0xA9F3_7ED7
  {
  }

  lemma FnvStepsBar()
    ensures FnvStep(0xA9F3_7ED7, 98) == 0x3F50_76EF && FnvStep(0x3F50_76EF, 97) == 0x39AA_A18A
    ensures FnvStep(0x39AA_A18A, 114) == 0xBF9C_F968
  {
  }

  /** The published values of 32-bit FNV-1a for the empty string, "a" and "foobar"; a byte above 127 gives
      another one than there, 460B3072, because it is widened with its sign. */
  lemma FnvVectors()
    ensures Fnv([]) == 0x811C_9DC5 && Fnv([97]) == 0xE40C_292C
    ensures Fnv([102, 111, 111, 98, 97, 114]) == 0xBF9C_F968
    ensures Fnv([0xC3]) == 0xC5F3_4F72 != 0x460B_3072
  {
    hide FnvStep;
    FnvStepA();
    FnvStepSigned();
    FnvFirst(97);
    FnvFirst(0xC3);
    assert Fnv([]) == 0x811C_9DC5;
    hide Fnv;
    FnvFirst(102);
    FnvStepsFoo();
    FnvStepsBar();
    FnvAppend([102], 111);
    FnvAppend([102, 111], 111);
    FnvAppend([102, 111, 111], 98);
    FnvAppend([102, 111, 111, 98], 97);
    FnvAppend([102, 111, 111, 98, 97], 114);
    assert [102] + [111] == [102, 111] && [102, 111] + [111] == [102, 111, 111];
    assert [102, 111, 111] + [98] == [102, 111, 111, 98] && [102, 111, 111, 98] + [97] == [102, 111, 111, 98, 97];
    assert [102, 111, 111, 98, 97] + [114] == [102, 111, 111, 98, 97, 114];
  }

  lemma FnvMore(d: Bytes, i: nat)
    requires i < |d|
    ensures Fnv(d[..i + 1]) == FnvStep(Fnv(d[..i]), d[i])
  {
    hide FnvStep;
    assert d[..i + 1][..i] == d[..i];
  }

  /** The bucket of a key. */
  function Bucket(key: Bytes, size: nat): (b: nat)
    requires size > 0
    ensures b < size
  {
    (Fnv(key) as int) % size
  }

  /** The byte at i of a string with a NUL behind it. */
  function CharAt(d: Key, i: nat): byte
    requires i <= |d|
  {
    if i < |d| then d[i] else 0
  }

  /** rim_compute_hash. */
  method ComputeHash(d: Key, size: nat) returns (b: nat)
    requires size > 0
    ensures b == Bucket(d, size) < size
  {
    hide FnvStep;
    var h := FNV_BASIS;
    var i := 0;
    while CharAt(d, i) != 0
      invariant 0 <= i <= |d| && h == Fnv(d[..i])
      decreases |d| - i
    {
      FnvMore(d, i);
      h := FnvStep(h, CharAt(d, i));
      i := i + 1;
    }
    assert d[..i] == d;
    b := (h as int) % size;
  }

  // ---------- chains ----------

  function At(l: seq<Ptr>, i: nat): Ptr {
    if i < |l| then l[i] else NULL
  }

  ghost predicate NextAt(ns: Nodes, l: seq<Ptr>, i: nat)
    requires i < |l|
  {
    l[i] != NULL && l[i] in ns && ns[l[i]].next == At(l, i + 1)
  }

  ghost predicate Holds(ns: Nodes, p: Ptr, m: map<Key, int>) {
    p in ns && ns[p].key in m && m[ns[p].key] == ns[p].data
  }

  ghost predicate HasKey(ns: Nodes, l: seq<Ptr>, k: Key) {
    exists i :: 0 <= i < |l| && l[i] in ns && ns[l[i]].key == k
  }

  /** The list from head by next links is l, and it holds exactly the keys of m that belong to
      bucket b, each once. */
  ghost predicate BucketOk(ns: Nodes, head: Ptr, l: seq<Ptr>, m: map<Key, int>, b: nat, size: nat)
    requires size > 0
  {
    && head == At(l, 0)
    && (forall i :: 0 <= i < |l| ==> NextAt(ns, l, i))
    && (forall i :: 0 <= i < |l| ==> Holds(ns, l[i], m) && Bucket(ns[l[i]].key, size) == b)
    && (forall i, j :: 0 <= i < j < |l| ==> ns[l[i]].key != ns[l[j]].key)
    && (forall k :: k in m && Bucket(k, size) == b ==> HasKey(ns, l, k))
  }

  /** The buckets hold exactly the map m. */
  ghost predicate Table(ns: Nodes, table: seq<Ptr>, lists: seq<seq<Ptr>>, m: map<Key, int>) {
    && |table| == |lists| > 0
    && forall b :: 0 <= b < |lists| ==> BucketOk(ns, table[b], lists[b], m, b, |lists|)
  }

  /** The maps agree on the keys of bucket b. */
  ghost predicate Agree(m: map<Key, int>, m2: map<Key, int>, b: nat, size: nat)
    requires size > 0
  {
    forall k :: Bucket(k, size) == b ==> (k in m <==> k in m2) && (k in m ==> m[k] == m2[k])
  }

  lemma BucketFrame(ns: Nodes, ns2: Nodes, head: Ptr, l: seq<Ptr>, m: map<Key, int>, m2: map<Key, int>, b: nat, size: nat)
    requires size > 0 && BucketOk(ns, head, l, m, b, size) && Agree(m, m2, b, size)
    requires forall p :: p in ns && Bucket(ns[p].key, size) == b ==> p in ns2 && ns2[p] == ns[p]
    ensures BucketOk(ns2, head, l, m2, b, size)
  {
    hide Bucket;
    forall i | 0 <= i < |l| ensures NextAt(ns2, l, i) && Holds(ns2, l[i], m2) {
      assert NextAt(ns, l, i) && Holds(ns, l[i], m);
    }
    forall k | k in m2 && Bucket(k, size) == b ensures HasKey(ns2, l, k) {
      var i :| 0 <= i < |l| && l[i] in ns && ns[l[i]].key == k;
      assert ns2[l[i]].key == k;
    }
  }

  /** The key is in the map exactly when the bucket has an entry for it. */
  lemma InBucket(ns: Nodes, head: Ptr, l: seq<Ptr>, m: map<Key, int>, b: nat, size: nat, k: Key)
    requires size > 0 && BucketOk(ns, head, l, m, b, size) && Bucket(k, size) == b
    ensures k in m <==> HasKey(ns, l, k)
  {
    hide Bucket;
    if HasKey(ns, l, k) {
      var i :| 0 <= i < |l| && l[i] in ns && ns[l[i]].key == k;
      assert Holds(ns, l[i], m);
    }
  }

  // ---------- one entry more, changed, less ----------

  lemma {:induction false} BucketAdd(ns: Nodes, head: Ptr, l: seq<Ptr>, m: map<Key, int>, b: nat, size: nat, k: Key, d: int, p: Ptr)
    requires size > 0 && BucketOk(ns, head, l, m, b, size) && Bucket(k, size) == b && k !in m && p != NULL && p !in ns
    ensures BucketOk(ns[p := Node(k, d, head)], p, [p] + l, m[k := d], b, size)
  {
    hide Bucket;
    var ns2, l2, m2 := ns[p := Node(k, d, head)], [p] + l, m[k := d];
    forall i | 0 <= i < |l2| ensures NextAt(ns2, l2, i) && Holds(ns2, l2[i], m2) && Bucket(ns2[l2[i]].key, size) == b {
      if i > 0 { assert NextAt(ns, l, i - 1) && Holds(ns, l[i - 1], m); }
    }
    forall i, j | 0 <= i < j < |l2| ensures ns2[l2[i]].key != ns2[l2[j]].key {
      assert Holds(ns, l[j - 1], m);
      if i > 0 { assert ns[l[i - 1]].key != ns[l[j - 1]].key; }
    }
    forall x | x in m2 && Bucket(x, size) == b ensures HasKey(ns2, l2, x) {
      if x != k { assert HasKey(ns, l, x); }
      HasKeyBehind(ns, l, k, d, head, p, x);
    }
  }

  lemma {:induction false} HasKeyBehind(ns: Nodes, l: seq<Ptr>, k: Key, d: int, head: Ptr, p: Ptr, x: Key)
    requires p !in ns && (x == k || HasKey(ns, l, x))
    ensures HasKey(ns[p := Node(k, d, head)], [p] + l, x)
  {
    var l2 := [p] + l;
    if x == k {
      assert l2[0] == p;
    } else {
      var i :| 0 <= i < |l| && l[i] in ns && ns[l[i]].key == x;
      assert l2[i + 1] == l[i];
    }
  }

  lemma DifferentNodes(ns: Nodes, head: Ptr, l: seq<Ptr>, m: map<Key, int>, b: nat, size: nat, i: nat, j: nat)
    requires size > 0 && BucketOk(ns, head, l, m, b, size) && i < |l| && j < |l| && i != j
    ensures l[i] in ns && l[j] in ns && l[i] != l[j] && ns[l[i]].key != ns[l[j]].key
  {
    hide Bucket;
    assert NextAt(ns, l, i) && NextAt(ns, l, j);
    if i < j { assert ns[l[i]].key != ns[l[j]].key; } else { assert ns[l[j]].key != ns[l[i]].key; }
  }

  lemma {:induction false} BucketReplace(ns: Nodes, head: Ptr, l: seq<Ptr>, m: map<Key, int>, b: nat, size: nat, i: nat, d: int)
    requires size > 0 && BucketOk(ns, head, l, m, b, size) && i < |l|
    ensures l[i] in ns && BucketOk(ns[l[i] := ns[l[i]].(data := d)], head, l, m[ns[l[i]].key := d], b, size)
  {
    hide Bucket;
    assert NextAt(ns, l, i) && Holds(ns, l[i], m);
    var p := l[i];
    var ns2, m2 := ns[p := ns[p].(data := d)], m[ns[p].key := d];
    assert forall q :: q in ns ==> q in ns2 && ns2[q].key == ns[q].key && ns2[q].next == ns[q].next;
    forall j | 0 <= j < |l| ensures NextAt(ns2, l, j) { assert NextAt(ns, l, j); }
    forall j | 0 <= j < |l| ensures Holds(ns2, l[j], m2) {
      assert NextAt(ns, l, j) && Holds(ns, l[j], m);
      if j != i { DifferentNodes(ns, head, l, m, b, size, i, j); }
    }
    forall x | x in m2 && Bucket(x, size) == b ensures HasKey(ns2, l, x) {
      var j :| 0 <= j < |l| && l[j] in ns && ns[l[j]].key == x;
      assert ns2[l[j]].key == x;
    }
  }

  function Without(l: seq<Ptr>, i: nat): (r: seq<Ptr>)
    requires i < |l|
    ensures |r| == |l| - 1
    ensures forall j :: 0 <= j < |r| ==> r[j] == if j < i then l[j] else l[j + 1]
  {
    l[..i] + l[i + 1..]
  }

  /** The nodes once the entry at place i of a list is unlinked and freed. */
  function UnlinkedNodes(ns: Nodes, l: seq<Ptr>, i: nat): Nodes
    requires i < |l| && l[i] in ns && (i > 0 ==> l[i - 1] in ns)
  {
    (if i == 0 then ns else ns[l[i - 1] := ns[l[i - 1]].(next := ns[l[i]].next)]) - {l[i]}
  }

  /** What unlinking leaves of another entry of the bucket. */
  lemma OtherStays(ns: Nodes, head: Ptr, l: seq<Ptr>, m: map<Key, int>, b: nat, size: nat, i: nat, j: nat)
    requires size > 0 && BucketOk(ns, head, l, m, b, size) && i < |l| && j < |l| && i != j
    ensures l[i] in ns && l[j] in ns && (i > 0 ==> l[i - 1] in ns)
    ensures var ns2 := UnlinkedNodes(ns, l, i);
      && l[j] in ns2 && ns2[l[j]].key == ns[l[j]].key && ns2[l[j]].data == ns[l[j]].data
      && ns2[l[j]].next == if j == i - 1 then ns[l[i]].next else ns[l[j]].next
  {
    hide Bucket;
    DifferentNodes(ns, head, l, m, b, size, i, j);
    if i > 0 && j != i - 1 { DifferentNodes(ns, head, l, m, b, size, i - 1, j); }
    if i > 0 { DifferentNodes(ns, head, l, m, b, size, i - 1, i); }
  }

  lemma WithoutAt(l: seq<Ptr>, i: nat)
    requires i < |l|
    ensures |Without(l, i)| == |l| - 1
    ensures forall j :: 0 <= j < |l| - 1 ==> Without(l, i)[j] == if j < i then l[j] else l[j + 1]
    ensures At(Without(l, i), 0) == if i == 0 then At(l, 1) else l[0]
  {
  }

  lemma PlaceStays(ns: Nodes, head: Ptr, l: seq<Ptr>, m: map<Key, int>, b: nat, size: nat, i: nat, j: nat)
    requires size > 0 && BucketOk(ns, head, l, m, b, size) && i < |l| && j < |l| - 1
    ensures l[i] in ns && (i > 0 ==> l[i - 1] in ns)
    ensures var ns2, r, m2 := UnlinkedNodes(ns, l, i), Without(l, i), m - {ns[l[i]].key};
      NextAt(ns2, r, j) && Holds(ns2, r[j], m2) && Bucket(ns2[r[j]].key, size) == b
  {
    hide Bucket, UnlinkedNodes;
    var j0 := if j < i then j else j + 1;
    OtherStays(ns, head, l, m, b, size, i, j0);
    DifferentNodes(ns, head, l, m, b, size, i, j0);
    assert NextAt(ns, l, j0) && Holds(ns, l[j0], m) && NextAt(ns, l, i);
  }

  lemma KeysStayDifferent(ns: Nodes, head: Ptr, l: seq<Ptr>, m: map<Key, int>, b: nat, size: nat, i: nat, j: nat, k: nat)
    requires size > 0 && BucketOk(ns, head, l, m, b, size) && i < |l| && j < k < |l| - 1
    ensures l[i] in ns && (i > 0 ==> l[i - 1] in ns)
    ensures var ns2, r := UnlinkedNodes(ns, l, i), Without(l, i);
      r[j] in ns2 && r[k] in ns2 && ns2[r[j]].key != ns2[r[k]].key
  {
    hide Bucket, UnlinkedNodes;
    var j0, k0 := if j < i then j else j + 1, if k < i then k else k + 1;
    OtherStays(ns, head, l, m, b, size, i, j0);
    OtherStays(ns, head, l, m, b, size, i, k0);
    DifferentNodes(ns, head, l, m, b, size, j0, k0);
  }

  lemma KeyStays(ns: Nodes, head: Ptr, l: seq<Ptr>, m: map<Key, int>, b: nat, size: nat, i: nat, x: Key)
    requires size > 0 && BucketOk(ns, head, l, m, b, size) && i < |l|
    requires l[i] in ns && x in m && Bucket(x, size) == b && x != ns[l[i]].key
    ensures i > 0 ==> l[i - 1] in ns
    ensures HasKey(UnlinkedNodes(ns, l, i), Without(l, i), x)
  {
    hide Bucket, UnlinkedNodes;
    var j :| 0 <= j < |l| && l[j] in ns && ns[l[j]].key == x;
    OtherStays(ns, head, l, m, b, size, i, j);
    assert Without(l, i)[if j < i then j else j - 1] == l[j];
  }

  lemma {:induction false} BucketRemove(ns: Nodes, head: Ptr, l: seq<Ptr>, m: map<Key, int>, b: nat, size: nat, i: nat)
    requires size > 0 && BucketOk(ns, head, l, m, b, size) && i < |l|
    ensures l[i] in ns && (i > 0 ==> l[i - 1] in ns)
    ensures BucketOk(UnlinkedNodes(ns, l, i), if i == 0 then ns[l[0]].next else head, Without(l, i), m - {ns[l[i]].key}, b, size)
  {
    hide Bucket, UnlinkedNodes, Without, Holds, HasKey;
    assert NextAt(ns, l, i);
    if i > 0 { assert NextAt(ns, l, i - 1); }
    var ns2, r, m2 := UnlinkedNodes(ns, l, i), Without(l, i), m - {ns[l[i]].key};
    WithoutAt(l, i);
    hide NextAt;
    forall j | 0 <= j < |r| ensures NextAt(ns2, r, j) && Holds(ns2, r[j], m2) && Bucket(ns2[r[j]].key, size) == b {
      PlaceStays(ns, head, l, m, b, size, i, j);
    }
    forall j, k | 0 <= j < k < |r| ensures ns2[r[j]].key != ns2[r[k]].key {
      KeysStayDifferent(ns, head, l, m, b, size, i, j, k);
    }
    forall x | x in m2 && Bucket(x, size) == b ensures HasKey(ns2, r, x) {
      KeyStays(ns, head, l, m, b, size, i, x);
    }
  }

  // ---------- the same for the whole table ----------

  lemma {:induction false} TableAdd(ns: Nodes, table: seq<Ptr>, lists: seq<seq<Ptr>>, m: map<Key, int>, k: Key, d: int, p: Ptr)
    requires Table(ns, table, lists, m) && k !in m && p != NULL && p !in ns
    ensures var b := Bucket(k, |lists|);
      Table(ns[p := Node(k, d, table[b])], table[b := p], lists[b := [p] + lists[b]], m[k := d])
  {
    hide Bucket, BucketOk;
    var b, size := Bucket(k, |lists|), |lists|;
    var ns2, table2, lists2, m2 := ns[p := Node(k, d, table[b])], table[b := p], lists[b := [p] + lists[b]], m[k := d];
    forall c | 0 <= c < size ensures BucketOk(ns2, table2[c], lists2[c], m2, c, size) {
      if c == b {
        BucketAdd(ns, table[b], lists[b], m, b, size, k, d, p);
      } else {
        BucketFrame(ns, ns2, table[c], lists[c], m, m2, c, size);
      }
    }
  }

  lemma {:induction false} TableReplace(ns: Nodes, table: seq<Ptr>, lists: seq<seq<Ptr>>, m: map<Key, int>, b: nat, i: nat, d: int)
    requires Table(ns, table, lists, m) && b < |lists| && i < |lists[b]|
    ensures var p := lists[b][i];
      p in ns && Table(ns[p := ns[p].(data := d)], table, lists, m[ns[p].key := d])
  {
    hide Bucket;
    var p, size := lists[b][i], |lists|;
    assert BucketOk(ns, table[b], lists[b], m, b, size);
    assert Holds(ns, p, m);
    var ns2, m2 := ns[p := ns[p].(data := d)], m[ns[p].key := d];
    hide BucketOk;
    forall c | 0 <= c < size ensures BucketOk(ns2, table[c], lists[c], m2, c, size) {
      if c == b {
        BucketReplace(ns, table[b], lists[b], m, b, size, i, d);
      } else {
        BucketFrame(ns, ns2, table[c], lists[c], m, m2, c, size);
      }
    }
  }

  lemma InTable(ns: Nodes, table: seq<Ptr>, lists: seq<seq<Ptr>>, m: map<Key, int>, b: nat, i: nat)
    requires Table(ns, table, lists, m) && b < |lists| && i < |lists[b]|
    ensures lists[b][i] != NULL && lists[b][i] in ns && ns[lists[b][i]].next == At(lists[b], i + 1)
    ensures Holds(ns, lists[b][i], m) && Bucket(ns[lists[b][i]].key, |lists|) == b
    ensures i > 0 ==> lists[b][i - 1] in ns && lists[b][i - 1] != NULL && Bucket(ns[lists[b][i - 1]].key, |lists|) == b
  {
    hide Bucket;
    assert BucketOk(ns, table[b], lists[b], m, b, |lists|);
    assert NextAt(ns, lists[b], i);
    if i > 0 { assert NextAt(ns, lists[b], i - 1); }
  }

  lemma {:induction false} TableRemove(ns: Nodes, table: seq<Ptr>, lists: seq<seq<Ptr>>, m: map<Key, int>, b: nat, i: nat)
    requires Table(ns, table, lists, m) && b < |lists| && i < |lists[b]|
    ensures var l := lists[b];
      && l[i] in ns && (i > 0 ==> l[i - 1] in ns) && Holds(ns, l[i], m)
      && Table(UnlinkedNodes(ns, l, i), if i == 0 then table[b := ns[l[0]].next] else table,
               lists[b := Without(l, i)], m - {ns[l[i]].key})
  {
    hide Bucket, BucketOk, Without;
    InTable(ns, table, lists, m, b, i);
    var l, size := lists[b], |lists|;
    var ns2, m2 := UnlinkedNodes(ns, l, i), m - {ns[l[i]].key};
    var table2, lists2 := if i == 0 then table[b := ns[l[0]].next] else table, lists[b := Without(l, i)];
    forall c | 0 <= c < size ensures BucketOk(ns2, table2[c], lists2[c], m2, c, size) {
      if c == b {
        BucketRemove(ns, table[b], l, m, b, size, i);
      } else {
        BucketFrame(ns, ns2, table[c], lists[c], m, m2, c, size);
      }
    }
  }

  // ---------- traversal ----------

  /** The keys still to come, with the cursor at place pos of bucket dnext. */
  ghost predicate IsRest(ns: Nodes, lists: seq<seq<Ptr>>, m: map<Key, int>, dnext: nat, pos: nat, rest: set<Key>)
    requires |lists| > 0
  {
    forall k :: k in rest <==> k in m && ToCome(ns, lists, dnext, pos, k)
  }

  ghost predicate ToCome(ns: Nodes, lists: seq<seq<Ptr>>, dnext: nat, pos: nat, k: Key)
    requires |lists| > 0
  {
    var b := Bucket(k, |lists|);
    b > dnext || (b == dnext && Ahead(ns, lists[b], pos, k))
  }

  ghost predicate Ahead(ns: Nodes, l: seq<Ptr>, pos: nat, k: Key) {
    exists i :: pos <= i < |l| && l[i] in ns && ns[l[i]].key == k
  }

  lemma RestAtStart(ns: Nodes, table: seq<Ptr>, lists: seq<seq<Ptr>>, m: map<Key, int>)
    requires Table(ns, table, lists, m)
    ensures IsRest(ns, lists, m, 0, 0, m.Keys)
  {
    hide Bucket;
    forall k | k in m ensures ToCome(ns, lists, 0, 0, k) {
      assert BucketOk(ns, table[Bucket(k, |lists|)], lists[Bucket(k, |lists|)], m, Bucket(k, |lists|), |lists|);
    }
  }

  /** Nothing is to come from a place behind the end of a bucket. */
  lemma RestSkips(ns: Nodes, table: seq<Ptr>, lists: seq<seq<Ptr>>, m: map<Key, int>, dnext: nat, pos: nat, rest: set<Key>)
    requires Table(ns, table, lists, m) && dnext < |lists| && pos >= |lists[dnext]|
    requires IsRest(ns, lists, m, dnext, pos, rest)
    ensures IsRest(ns, lists, m, dnext + 1, 0, rest)
    ensures dnext + 1 == |lists| ==> rest == {}
  {
    hide Fnv;
    forall k ensures k in rest <==> k in m && ToCome(ns, lists, dnext + 1, 0, k) {
      if k in m {
        var b := Bucket(k, |lists|);
        assert BucketOk(ns, table[b], lists[b], m, b, |lists|);
        assert HasKey(ns, lists[b], k);
      }
    }
  }

  /** Moving past an entry, or unlinking it, leaves the keys ahead of it but its own. */
  lemma AheadKeeps(ns: Nodes, head: Ptr, l: seq<Ptr>, m: map<Key, int>, b: nat, size: nat, i: nat, k: Key)
    requires size > 0 && BucketOk(ns, head, l, m, b, size) && i < |l|
    ensures l[i] in ns && (Ahead(ns, l, i + 1, k) <==> Ahead(ns, l, i, k) && k != ns[l[i]].key)
  {
    hide Bucket;
    assert NextAt(ns, l, i);
    if Ahead(ns, l, i + 1, k) {
      var j :| i + 1 <= j < |l| && l[j] in ns && ns[l[j]].key == k;
      DifferentNodes(ns, head, l, m, b, size, i, j);
    }
    if Ahead(ns, l, i, k) && k != ns[l[i]].key {
      var j :| i <= j < |l| && l[j] in ns && ns[l[j]].key == k;
      assert j != i;
    }
  }

  lemma AheadStays(ns: Nodes, head: Ptr, l: seq<Ptr>, m: map<Key, int>, b: nat, size: nat, i: nat, k: Key)
    requires size > 0 && BucketOk(ns, head, l, m, b, size) && i < |l|
    ensures l[i] in ns && (i > 0 ==> l[i - 1] in ns)
    ensures k != ns[l[i]].key && Ahead(ns, l, i, k) ==> Ahead(UnlinkedNodes(ns, l, i), Without(l, i), i, k)
  {
    hide Bucket, UnlinkedNodes;
    assert NextAt(ns, l, i);
    if i > 0 { assert NextAt(ns, l, i - 1); }
    if k != ns[l[i]].key && Ahead(ns, l, i, k) {
      var j :| i <= j < |l| && l[j] in ns && ns[l[j]].key == k;
      OtherStays(ns, head, l, m, b, size, i, j);
      assert Without(l, i)[j - 1] == l[j];
    }
  }

  lemma AheadDeletes(ns: Nodes, head: Ptr, l: seq<Ptr>, m: map<Key, int>, b: nat, size: nat, i: nat, k: Key)
    requires size > 0 && BucketOk(ns, head, l, m, b, size) && i < |l|
    ensures l[i] in ns && (i > 0 ==> l[i - 1] in ns)
    ensures k != ns[l[i]].key ==> (Ahead(UnlinkedNodes(ns, l, i), Without(l, i), i, k) <==> Ahead(ns, l, i, k))
  {
    hide Bucket, UnlinkedNodes;
    AheadStays(ns, head, l, m, b, size, i, k);
    var ns2, r := UnlinkedNodes(ns, l, i), Without(l, i);
    if k != ns[l[i]].key && Ahead(ns2, r, i, k) {
      var j :| i <= j < |r| && r[j] in ns2 && ns2[r[j]].key == k;
      OtherStays(ns, head, l, m, b, size, i, j + 1);
      assert l[j + 1] in ns && ns[l[j + 1]].key == k;
    }
  }

  lemma {:induction false} RestKeeps(ns: Nodes, table: seq<Ptr>, lists: seq<seq<Ptr>>, m: map<Key, int>, b: nat, i: nat, rest: set<Key>)
    requires Table(ns, table, lists, m) && b < |lists| && i < |lists[b]|
    requires IsRest(ns, lists, m, b, i, rest)
    ensures lists[b][i] in ns && ns[lists[b][i]].key in rest
    ensures IsRest(ns, lists, m, b, i + 1, rest - {ns[lists[b][i]].key})
  {
    hide Bucket, BucketOk;
    InTable(ns, table, lists, m, b, i);
    var l := lists[b];
    var key := ns[l[i]].key;
    assert Ahead(ns, l, i, key);
    forall k: Key ensures ToCome(ns, lists, b, i + 1, k) <==> ToCome(ns, lists, b, i, k) && k != key {
      AheadKeeps(ns, table[b], l, m, b, |lists|, i, k);
    }
  }

  lemma {:induction false} RestDeletes(ns: Nodes, table: seq<Ptr>, lists: seq<seq<Ptr>>, m: map<Key, int>, b: nat, i: nat, rest: set<Key>)
    requires Table(ns, table, lists, m) && b < |lists| && i < |lists[b]|
    requires IsRest(ns, lists, m, b, i, rest)
    ensures lists[b][i] in ns && (i > 0 ==> lists[b][i - 1] in ns) && ns[lists[b][i]].key in rest
    ensures var key := ns[lists[b][i]].key;
      IsRest(UnlinkedNodes(ns, lists[b], i), lists[b := Without(lists[b], i)], m - {key}, b, i, rest - {key})
  {
    hide Bucket, BucketOk, UnlinkedNodes, Without, Ahead;
    InTable(ns, table, lists, m, b, i);
    RestKeeps(ns, table, lists, m, b, i, rest);
    var l, r := lists[b], Without(lists[b], i);
    var key, ns2, lists2 := ns[l[i]].key, UnlinkedNodes(ns, l, i), lists[b := r];
    forall k: Key ensures k != key ==> (ToCome(ns2, lists2, b, i, k) <==> ToCome(ns, lists, b, i, k)) {
      AheadDeletes(ns, table[b], l, m, b, |lists|, i, k);
    }
  }
}
