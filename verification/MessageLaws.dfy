/** What the parser of msg.c takes and refuses, for any bytes, written or not. */
module MessageLaws {
  import opened Bytes
  import opened MessageFormat

  predicate NoneOf(s: Bytes, c: byte, d: byte) {
    forall i :: 0 <= i < |s| ==> s[i] != c && s[i] != d
  }

  predicate AllSpace(s: Bytes) {
    forall i :: 0 <= i < |s| ==> IsSpace(s[i])
  }

  // ---------- keys ----------

  /** A key loses the white space on both sides, and nothing else. */
  lemma {:induction false} TrimIs(a: Bytes, t: Bytes, b: Bytes)
    requires AllSpace(a) && AllSpace(b)
    requires t != [] && !IsSpace(t[0]) && !IsSpace(t[|t| - 1])
    ensures Trim(a + t + b) == t
  {
    var k := a + t + b;
    var l := TrimLeft(k);
    assert k == a + (t + b);
    TrimLeftIs(a, t + b);
    TrimRightIs(t, b);
  }

  lemma {:induction false} TrimLeftIs(a: Bytes, s: Bytes)
    requires AllSpace(a) && (s == [] || !IsSpace(s[0]))
    ensures TrimLeft(a + s) == s
  {
    if a == [] {
      assert a + s == s;
    } else {
      assert (a + s)[1..] == a[1..] + s;
      TrimLeftIs(a[1..], s);
    }
  }

  lemma {:induction false} TrimRightIs(s: Bytes, b: Bytes)
    requires AllSpace(b) && (s == [] || !IsSpace(s[|s| - 1]))
    ensures TrimRight(s + b) == s
  {
    if b == [] {
      assert s + b == s;
    } else {
      assert (s + b)[..|s + b| - 1] == s + b[..|b| - 1];
      TrimRightIs(s, b[..|b| - 1]);
    }
  }

  lemma {:induction false} TrimNothing(a: Bytes)
    requires AllSpace(a)
    ensures Trim(a) == []
  {
    TrimLeftIs(a, []);
    assert a + [] == a;
  }

  // ---------- items ----------

  lemma {:induction false} SeparatorBehind(key: Bytes, rest: Bytes)
    requires NoneOf(key, SEPARATOR, 0)
    ensures FindSeparator(key + [SEPARATOR] + rest) == |key|
  {
    if key != [] {
      SeparatorBehind(key[1..], rest);
      assert (key + [SEPARATOR] + rest)[1..] == key[1..] + [SEPARATOR] + rest;
    }
  }

  /** Without a separator in front of the first NUL there is no item. */
  lemma {:induction false} NoSeparator(key: Bytes, rest: Bytes)
    requires NoneOf(key, SEPARATOR, 0) && (rest == [] || rest[0] == 0)
    ensures ParseItem(key + rest) == Failed(ErrFormat)
  {
    NoneFound(key, rest);
  }

  lemma {:induction false} NoneFound(key: Bytes, rest: Bytes)
    requires NoneOf(key, SEPARATOR, 0) && (rest == [] || rest[0] == 0)
    ensures FindSeparator(key + rest) == -1
  {
    if key != [] {
      NoneFound(key[1..], rest);
      assert (key + rest)[1..] == key[1..] + rest;
    } else {
      assert key + rest == rest;
    }
  }

  /** An item is a key, a separator, eight bytes of a length n, most significant first, eight bytes that
      nobody looks at, and the value. It is taken exactly if n is not negative as a signed number, as many
      bytes are there, and what follows them, if anything, is a newline or a NUL. */
  lemma {:induction false} ItemTakenWhen(key: Bytes, n: nat, unused: Bytes, rest: Bytes)
    requires NoneOf(key, SEPARATOR, 0) && n < TWO64 && |unused| == 8
    ensures ParseItem(key + [SEPARATOR] + (BigEndian(n, 8) + unused + rest)) ==
      if n >= TWO63 then Failed(Negative)
      else if n > |rest| || (n < |rest| && rest[n] != 10 && rest[n] != 0) then Failed(ErrLength)
      else Parsed(Trim(key), rest[..n], |key| + 1 + 16 + n + 1)
  {
    hide ParseValue, BigEndian, Trim;
    var behind := BigEndian(n, 8) + unused + rest;
    var s := key + [SEPARATOR] + behind;
    SeparatorBehind(key, behind);
    assert s[..|key|] == key && s[|key| + 1..] == behind;
    ValueTakenWhen(key, n, unused, rest, |key| + 1);
  }

  lemma {:induction false} ValueTakenWhen(key: Bytes, n: nat, unused: Bytes, rest: Bytes, before: nat)
    requires n < TWO64 && |unused| == 8
    ensures ParseValue(key, BigEndian(n, 8) + unused + rest, before) ==
      if n >= TWO63 then Failed(Negative)
      else if n > |rest| || (n < |rest| && rest[n] != 10 && rest[n] != 0) then Failed(ErrLength)
      else Parsed(Trim(key), rest[..n], before + 16 + n + 1)
  {
    hide Trim, BigEndian, FromBigEndian, ValueLength;
    var behind := BigEndian(n, 8) + unused + rest;
    LengthRead(n, unused, rest);
    BehindField(BigEndian(n, 8) + unused, rest, n);
  }

  lemma LengthRead(n: nat, unused: Bytes, rest: Bytes)
    requires n < TWO64 && |unused| == 8
    ensures ValueLength(BigEndian(n, 8) + unused + rest) == if n < TWO63 then n else n - TWO64
  {
    hide BigEndian, FromBigEndian;
    assert (BigEndian(n, 8) + unused + rest)[..8] == BigEndian(n, 8);
    PowerOf8();
    BigEndianBack(n, 8);
  }

  lemma BehindField(field: Bytes, rest: Bytes, n: nat)
    requires |field| == ALIGN
    ensures n <= |rest| ==> (field + rest)[ALIGN..ALIGN + n] == rest[..n]
    ensures n < |rest| ==> (field + rest)[ALIGN + n] == rest[n]
  {
  }

  /** Fewer than sixteen bytes behind the separator are no item. */
  lemma {:induction false} ShortItemRefused(key: Bytes, rest: Bytes)
    requires NoneOf(key, SEPARATOR, 0) && |rest| < 16
    ensures ParseItem(key + [SEPARATOR] + rest) == Failed(ErrFormat)
  {
    var s := key + [SEPARATOR] + rest;
    SeparatorBehind(key, rest);
    assert s[|key| + 1..] == rest;
  }
}
