/** Key comparison of tree.c: both evaluation orders are total orders on NUL-free keys. */
module TreeKeys {
  import opened Bytes

  /** RIM_TREE_TYPE_STR and RIM_TREE_TYPE_NUM. */
  datatype KeyType = Str | Num

  /** memcmp: the difference of the first two bytes that differ among the first n. */
  function Memcmp(a: Bytes, b: Bytes, n: nat): int
    requires n <= |a| && n <= |b|
  {
    if n == 0 then 0
    else if a[0] != b[0] then a[0] - b[0]
    else Memcmp(a[1..], b[1..], n - 1)
  }

  /** rim_tree_compare: cursor key against node key. A string key is compared up to and
      including the terminator of the shorter one. */
  function Compare(kt: KeyType, key: Key, nodeKey: Key): int {
    match kt
    case Num =>
      if |key| < |nodeKey| then -1
      else if |key| > |nodeKey| then 1
      else Memcmp(key, nodeKey, |key|)
    case Str =>
      Memcmp(key + [0], nodeKey + [0], Min(|key|, |nodeKey|) + 1)
  }

  /** Byte-wise lexicographic order, the reference both comparisons are measured against. */
  predicate LexLess(a: Bytes, b: Bytes) {
    |b| > 0 && (|a| == 0 || a[0] < b[0] || (a[0] == b[0] && LexLess(a[1..], b[1..])))
  }

  predicate Less(kt: KeyType, a: Key, b: Key) {
    match kt
    case Num => |a| < |b| || (|a| == |b| && LexLess(a, b))
    case Str => LexLess(a, b)
  }

  lemma {:induction false} MemcmpIsLex(a: Bytes, b: Bytes)
    requires |a| == |b|
    ensures Memcmp(a, b, |a|) < 0 <==> LexLess(a, b)
    ensures Memcmp(a, b, |a|) > 0 <==> LexLess(b, a)
    ensures Memcmp(a, b, |a|) == 0 <==> a == b
  {
    if |a| > 0 && a[0] == b[0] {
      MemcmpIsLex(a[1..], b[1..]);
      assert a == [a[0]] + a[1..] && b == [b[0]] + b[1..];
    }
  }

  lemma {:induction false} MemcmpTerminatedIsLex(a: Key, b: Key)
    ensures var c := Memcmp(a + [0], b + [0], Min(|a|, |b|) + 1);
            && (c < 0 <==> LexLess(a, b))
            && (c > 0 <==> LexLess(b, a))
            && (c == 0 <==> a == b)
    decreases |a|
  {
    if |a| > 0 && |b| > 0 && a[0] == b[0] {
      assert (a + [0])[1..] == a[1..] + [0] && (b + [0])[1..] == b[1..] + [0];
      MemcmpTerminatedIsLex(a[1..], b[1..]);
      assert a == [a[0]] + a[1..] && b == [b[0]] + b[1..];
    }
  }

  /** The sign of rim_tree_compare decides the order and equality exactly. */
  lemma {:induction false} CompareDecides(kt: KeyType, a: Key, b: Key)
    ensures Compare(kt, a, b) < 0 <==> Less(kt, a, b)
    ensures Compare(kt, a, b) > 0 <==> Less(kt, b, a)
    ensures Compare(kt, a, b) == 0 <==> a == b
  {
    match kt
    case Num => if |a| == |b| { MemcmpIsLex(a, b); }
    case Str => MemcmpTerminatedIsLex(a, b);
  }

  lemma {:induction false} LexTransitive(a: Bytes, b: Bytes, c: Bytes)
    requires LexLess(a, b) && LexLess(b, c)
    ensures LexLess(a, c)
  {
    if |a| > 0 && a[0] == b[0] && b[0] == c[0] {
      LexTransitive(a[1..], b[1..], c[1..]);
    }
  }

  lemma {:induction false} LessTransitive(kt: KeyType, a: Key, b: Key, c: Key)
    requires Less(kt, a, b) && Less(kt, b, c)
    ensures Less(kt, a, c)
  {
    if kt.Str? || (|a| == |b| == |c|) {
      LexTransitive(a, b, c);
    }
  }

  /** Irreflexive and asymmetric, from the three-way decision of one comparison. */
  lemma {:induction false} LessStrict(kt: KeyType, a: Key, b: Key)
    ensures !Less(kt, a, a)
    ensures !(Less(kt, a, b) && Less(kt, b, a))
    ensures Less(kt, a, b) || a == b || Less(kt, b, a)
  {
    CompareDecides(kt, a, a);
    CompareDecides(kt, a, b);
  }
}
