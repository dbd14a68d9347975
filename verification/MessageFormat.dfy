/** The binary-safe format of SEMI messages, msg.c: items of a key, a separator, the length of the
    value, the value and a newline. */
module MessageFormat {
  import opened Bytes

  const SEPARATOR: byte := 61
  const NEWLINE: byte := 10
  /** The room a length takes: eight bytes of it, and eight that are zero. */
  const ALIGN := 16
  const TWO63 := 0x8000_0000_0000_0000
  const TWO64 := 0x1_0000_0000_0000_0000

  // ---------- characters ----------

  predicate IsSpace(c: byte) {
    c == 32 || 9 <= c <= 13
  }

  predicate IsAlnum(c: byte) {
    48 <= c <= 57 || 65 <= c <= 90 || 97 <= c <= 122
  }

  predicate KeyChar(c: byte) {
    IsAlnum(c) || IsSpace(c) || c == 45 || c == 95
  }

  /** White space and the characters of keys: letters, digits, white space, hyphen and underscore. */
  lemma CharacterTable(c: byte)
    ensures var ch := c as char;
      && (IsSpace(c) <==> ch == ' ' || ch == '\t' || ch == '\n' || ch == '\U{000B}' || ch == '\U{000C}' || ch == '\r')
      && (KeyChar(c) <==> '0' <= ch <= '9' || 'A' <= ch <= 'Z' || 'a' <= ch <= 'z' || IsSpace(c) || ch == '-' || ch == '_')
  {
  }

  predicate ValidKey(k: Bytes) {
    forall i :: 0 <= i < |k| ==> KeyChar(k[i])
  }

  function TrimLeft(k: Bytes): (t: Bytes)
    ensures |t| <= |k| && t == k[|k| - |t|..]
    ensures t != [] ==> !IsSpace(t[0])
    ensures forall i :: 0 <= i < |k| - |t| ==> IsSpace(k[i])
  {
    if k != [] && IsSpace(k[0]) then TrimLeft(k[1..]) else k
  }

  function TrimRight(k: Bytes): (t: Bytes)
    ensures |t| <= |k| && t == k[..|t|]
    ensures t != [] ==> !IsSpace(t[|t| - 1])
    ensures forall i :: |t| <= i < |k| ==> IsSpace(k[i])
  {
    if k != [] && IsSpace(k[|k| - 1]) then TrimRight(k[..|k| - 1]) else k
  }

  /** A key without the white space around it. */
  function Trim(k: Bytes): Bytes {
    TrimRight(TrimLeft(k))
  }

  /** "comment". */
  const COMMENT: Bytes := [99, 111, 109, 109, 101, 110, 116]

  lemma CommentSpelled()
    ensures |COMMENT| == |"comment"| && forall i :: 0 <= i < |COMMENT| ==> COMMENT[i] as char == "comment"[i]
  {
  }

  // ---------- lengths ----------

  /** The k low bytes of n, most significant first: htobe64 for k = 8. */
  function BigEndian(n: nat, k: nat): (s: Bytes)
    ensures |s| == k
  {
    if k == 0 then [] else BigEndian(n / 256, k - 1) + [n % 256]
  }

  function FromBigEndian(s: Bytes): nat {
    if s == [] then 0 else FromBigEndian(s[..|s| - 1]) * 256 + s[|s| - 1]
  }

  function Power256(k: nat): nat {
    if k == 0 then 1 else 256 * Power256(k - 1)
  }

  /** Byte i is the digit of n to the base 256 that has k - 1 - i digits behind it. */
  lemma {:induction false} BigEndianDigit(n: nat, k: nat, i: nat)
    requires i < k
    ensures PowerPositive(k - 1 - i) && BigEndian(n, k)[i] == n / Power256(k - 1 - i) % 256
  {
    if i < k - 1 {
      BigEndianDigit(n / 256, k - 1, i);
      QuotientTwice(n, Power256(k - 2 - i));
    }
  }

  /** No power is zero. */
  predicate PowerPositive(k: nat)
    ensures PowerPositive(k) && Power256(k) > 0
  {
    k == 0 || PowerPositive(k - 1)
  }

  lemma QuotientTwice(n: nat, p: nat)
    requires p > 0
    ensures n / 256 / p == n / (256 * p)
  {
    var q, r := n / 256 / p, n / 256 % p;
    assert n / 256 == q * p + r;
    var rest := 256 * r + n % 256;
    assert n == q * (256 * p) + rest && rest < 256 * p;
    QuotientIs(n, 256 * p, q, rest);
  }

  lemma QuotientIs(n: nat, k: int, q: nat, r: nat)
    requires r < k && n == q * k + r
    ensures n / k == q
  {
    var d := n / k - q;
    assert d * k == r - n % k;
    ProductBounds(d, k);
  }

  lemma ProductBounds(d: int, k: int)
    requires k > 0
    ensures d > 0 ==> d * k >= k
    ensures d < 0 ==> d * k <= -k
  {
  }

  lemma {:induction false} BigEndianBack(n: nat, k: nat)
    requires n < Power256(k)
    ensures FromBigEndian(BigEndian(n, k)) == n
  {
    if k > 0 {
      assert n / 256 < Power256(k - 1);
      BigEndianBack(n / 256, k - 1);
      assert BigEndian(n, k)[..k - 1] == BigEndian(n / 256, k - 1);
    }
  }

  lemma PowerOf8()
    ensures Power256(8) == TWO64
  {
    assert Power256(2) == 0x1_0000;
    assert Power256(4) == 256 * Power256(3) == 256 * 256 * Power256(2);
    assert Power256(6) == 256 * Power256(5) == 256 * 256 * Power256(4);
    assert Power256(8) == 256 * Power256(7) == 256 * 256 * Power256(6);
  }

  lemma {:induction false} FromBigEndianBound(s: Bytes)
    ensures FromBigEndian(s) < Power256(|s|)
  {
    if s != [] { FromBigEndianBound(s[..|s| - 1]); }
  }

  lemma {:induction false} FromBigEndianTop(s: Bytes)
    requires s != []
    ensures FromBigEndian(s) == s[0] as int * Power256(|s| - 1) + FromBigEndian(s[1..])
  {
    if |s| > 1 {
      var front := s[..|s| - 1];
      FromBigEndianTop(front);
      assert s[1..][..|s| - 2] == front[1..];
      TimesLater(s[0] as int, Power256(|s| - 2));
    }
  }

  lemma TimesLater(a: int, p: int)
    ensures a * p * 256 == a * (256 * p)
  {
  }

  /** A length is negative as a signed number exactly when its first byte has the top bit. */
  lemma {:induction false} NegativeIffTopBit(s: Bytes)
    requires |s| == 8
    ensures Signed64(FromBigEndian(s)) < 0 <==> s[0] >= 128
  {
    FromBigEndianTop(s);
    FromBigEndianBound(s[1..]);
    PowerOf8();
    assert Power256(8) == 256 * Power256(7);
  }

  /** A 64-bit number read as signed. */
  function Signed64(n: nat): int {
    if n % TWO64 < TWO63 then n % TWO64 else n % TWO64 - TWO64
  }

  const EIGHT_ZEROS: Bytes := [0, 0, 0, 0, 0, 0, 0, 0]

  function LengthField(n: nat): (s: Bytes)
    ensures |s| == ALIGN
  {
    BigEndian(n, 8) + EIGHT_ZEROS
  }

  // ---------- writing ----------

  function Item(key: Bytes, value: Bytes): (s: Bytes)
    ensures |s| == |key| + 1 + ALIGN + |value| + 1
  {
    key + [SEPARATOR] + LengthField(|value|) + value + [NEWLINE]
  }

  /** An item byte by byte. */
  lemma ItemInBytes()
    ensures Item([107], [97, 98]) == [107, 61, 0, 0, 0, 0, 0, 0, 0, 2, 0, 0, 0, 0, 0, 0, 0, 0, 97, 98, 10]
  {
    hide BigEndian, Power256;
    forall i | 0 <= i < 8 ensures BigEndian(2, 8)[i] == if i == 7 then 2 else 0 {
      BigEndianDigit(2, 8, i);
      SmallQuotient(2, 7 - i);
    }
    assert BigEndian(2, 8) == [0, 0, 0, 0, 0, 0, 0, 2];
  }

  lemma SmallQuotient(n: nat, k: nat)
    requires n < 256
    ensures PowerPositive(k) && n / Power256(k) == if k == 0 then n else 0
  {
    if k > 0 {
      assert PowerPositive(k - 1) && Power256(k) >= 256;
      QuotientIs(n, Power256(k), 0, n);
    }
  }

  datatype Pair = Pair(key: Bytes, value: Bytes)

  function Message(ps: seq<Pair>): Bytes {
    if ps == [] then [] else Message(ps[..|ps| - 1]) + Item(ps[|ps| - 1].key, ps[|ps| - 1].value)
  }

  // ---------- reading ----------

  /** RIM_ERR_FORMAT and RIM_ERR_LENGTH; Outside, where the source reads outside the message; and, for
      what is left of a message alone, a length that is negative as a signed number, for which it
      looks at bytes in front. */
  datatype Status = Okay | ErrFormat | ErrLength | Outside | Negative

  datatype Parsed = Parsed(key: Bytes, value: Bytes, taken: nat) | Failed(st: Status)

  /** The first separator before any NUL, or -1: strstr. */
  function FindSeparator(s: Bytes): (r: int)
    ensures -1 <= r < |s|
    ensures r >= 0 ==> s[r] == SEPARATOR && forall i :: 0 <= i < r ==> s[i] != SEPARATOR && s[i] != 0
  {
    if s == [] || s[0] == 0 then -1
    else if s[0] == SEPARATOR then 0
    else
      var r := FindSeparator(s[1..]);
      if r < 0 then -1 else r + 1
  }

  /** rim_parse_item on what is left of a message. */
  function ParseItem(s: Bytes): (p: Parsed)
    ensures p.Parsed? ==> ALIGN + 2 <= p.taken <= |s| + 1 && |p.value| <= |s|
    ensures p.Failed? ==> p.st != Okay
  {
    var eq := FindSeparator(s);
    if eq < 0 then Failed(ErrFormat)
    else ParseValue(s[..eq], s[eq + 1..], eq + 1)
  }

  /** The length in front of a value. */
  function ValueLength(s: Bytes): int
    requires |s| >= ALIGN
  {
    Signed64(FromBigEndian(s[..8]))
  }

  /** The part behind the separator. */
  function ParseValue(key: Bytes, s: Bytes, before: nat): (p: Parsed)
    ensures p.Parsed? ==> before + ALIGN + 1 <= p.taken <= before + |s| + 1 && |p.value| <= |s|
    ensures p.Failed? ==> p.st != Okay
  {
    if |s| < ALIGN then Failed(ErrFormat)
    else
      var n := ValueLength(s);
      if |s| - ALIGN < n then Failed(ErrLength)
      else if n < 0 then Failed(Negative)
      else if n < |s| - ALIGN && s[ALIGN + n] != NEWLINE && s[ALIGN + n] != 0 then Failed(ErrLength)
      else Parsed(Trim(key), s[ALIGN..ALIGN + n], before + ALIGN + n + 1)
  }

  /** rim_read_msg: the first item that is no comment, and how far it takes the message. */
  function ReadItem(s: Bytes): (p: Parsed)
    ensures p.Parsed? ==> 0 < p.taken <= |s| + 1
    ensures p.Failed? ==> p.st != Okay
    decreases |s|
  {
    var p := ParseItem(s);
    if p.Parsed? && p.key == COMMENT then
      if p.taken > |s| then Failed(Outside)
      else
        var q := ReadItem(s[p.taken..]);
        if q.Parsed? then q.(taken := q.taken + p.taken) else q
    else p
  }

  /** What one call of rim_read_msg gives when s is left of the message. */
  function ReadNext(s: Bytes): Parsed {
    if s == [] then Failed(ErrLength) else ReadItem(s)
  }

  /** All that is read until a call does not succeed. */
  function ReadAll(s: Bytes): seq<Pair>
    decreases |s|
  {
    match ReadNext(s)
    case Failed(_) => []
    case Parsed(k, v, n) => [Pair(k, v)] + if n > |s| then [] else ReadAll(s[n..])
  }

  // ---------- what was written is read ----------

  /** The pairs a reader sees: keys trimmed, comments dropped. */
  function Seen(ps: seq<Pair>): seq<Pair> {
    if ps == [] then []
    else
      var k, rest := Trim(ps[0].key), Seen(ps[1..]);
      if k == COMMENT then rest else [Pair(k, ps[0].value)] + rest
  }

  ghost predicate Writable(ps: seq<Pair>) {
    forall i :: 0 <= i < |ps| ==> ValidKey(ps[i].key) && |ps[i].value| < TWO63
  }

  lemma {:induction false} FindsSeparator(key: Bytes, rest: Bytes)
    requires ValidKey(key)
    ensures FindSeparator(key + [SEPARATOR] + rest) == |key|
  {
    var s := key + [SEPARATOR] + rest;
    if key != [] {
      FindsSeparator(key[1..], rest);
      assert s[1..] == key[1..] + [SEPARATOR] + rest;
      assert KeyChar(key[0]) && s[0] == key[0];
    }
  }

  lemma {:induction false} LengthBack(n: nat)
    requires n < TWO63
    ensures Signed64(FromBigEndian(LengthField(n)[..8])) == n
  {
    PowerOf8();
    BigEndianBack(n, 8);
    assert LengthField(n)[..8] == BigEndian(n, 8);
  }

  lemma {:induction false} ValueBack(key: Bytes, value: Bytes, rest: Bytes, before: nat)
    requires |value| < TWO63
    ensures ParseValue(key, LengthField(|value|) + value + [NEWLINE] + rest, before)
         == Parsed(Trim(key), value, before + ALIGN + |value| + 1)
  {
    hide LengthField, FromBigEndian, Signed64, Trim;
    var n := |value|;
    var f := LengthField(n);
    var s := f + value + [NEWLINE] + rest;
    LengthBack(n);
    assert s[..8] == f[..8];
    assert s[ALIGN..ALIGN + n] == value;
    assert s[ALIGN + n] == NEWLINE;
  }

  lemma {:induction false} ItemBack(key: Bytes, value: Bytes, rest: Bytes)
    requires ValidKey(key) && |value| < TWO63
    ensures ParseItem(Item(key, value) + rest) == Parsed(Trim(key), value, |Item(key, value)|)
  {
    hide LengthField, Trim, ParseValue;
    var behind := LengthField(|value|) + value + [NEWLINE] + rest;
    var s := Item(key, value) + rest;
    assert s == key + [SEPARATOR] + behind;
    FindsSeparator(key, behind);
    assert s[..|key|] == key && s[|key| + 1..] == behind;
    ValueBack(key, value, rest, |key| + 1);
  }

  lemma {:induction false} MessageFirst(ps: seq<Pair>)
    requires ps != []
    ensures Message(ps) == Item(ps[0].key, ps[0].value) + Message(ps[1..])
  {
    hide Item;
    var front, last := ps[..|ps| - 1], ps[|ps| - 1];
    if |ps| == 1 {
      assert front == [] && ps[1..] == [];
      assert Message(ps) == [] + Item(last.key, last.value) == Item(last.key, last.value) + [];
    } else {
      MessageFirst(front);
      assert ps[1..][..|ps| - 2] == front[1..];
      var a, b, c := Item(front[0].key, front[0].value), Message(front[1..]), Item(last.key, last.value);
      assert (a + b) + c == a + (b + c);
    }
  }

  /** One call on a message: the first pair that is seen, with the rest of the message behind it;
      or the end. */
  lemma {:induction false} ReadFirst(ps: seq<Pair>)
    requires Writable(ps) && ps != []
    ensures var s, i := Message(ps), Item(ps[0].key, ps[0].value);
      && s != [] && |i| <= |s| && s[|i|..] == Message(ps[1..])
      && ReadItem(s) ==
           if Trim(ps[0].key) != COMMENT then Parsed(Trim(ps[0].key), ps[0].value, |i|)
           else if ReadItem(Message(ps[1..])).Failed? then ReadItem(Message(ps[1..]))
           else ReadItem(Message(ps[1..])).(taken := ReadItem(Message(ps[1..])).taken + |i|)
  {
    hide ParseItem, Item, Trim;
    MessageFirst(ps);
    ItemBack(ps[0].key, ps[0].value, Message(ps[1..]));
    var i, rest := Item(ps[0].key, ps[0].value), Message(ps[1..]);
    assert (i + rest)[|i|..] == rest;
  }

  /** Writing any sequence of pairs and reading until a call does not succeed gives the same
      sequence, with keys trimmed and comments dropped. */
  lemma {:induction false} WrittenIsRead(ps: seq<Pair>)
    requires Writable(ps)
    ensures ReadAll(Message(ps)) == Seen(ps)
  {
    if ps != [] {
      var rest := ps[1..];
      WrittenIsRead(rest);
      ReadFirst(ps);
      CommentsSkipped(ps);
    }
  }

  /** Reading a message that was written fails only where nothing but comments is left, and then with
      one status: it meets no length that is negative or too long, and never looks outside. */
  lemma {:induction false} WrittenFailsOnlyAtEnd(ps: seq<Pair>)
    requires Writable(ps)
    ensures ReadItem(Message(ps)).Failed? <==> Seen(ps) == []
    ensures ReadItem(Message(ps)).Failed? ==> ReadItem(Message(ps)) == Failed(ErrFormat)
  {
    if ps != [] {
      hide ReadItem, Item, Trim, Message;
      WrittenFailsOnlyAtEnd(ps[1..]);
      ReadFirst(ps);
    } else {
      EmptyFails();
    }
  }

  /** A comment changes nothing of what is read behind it. */
  lemma {:induction false} CommentsSkipped(ps: seq<Pair>)
    requires Writable(ps) && ps != []
    ensures ReadAll(Message(ps)) ==
      (if Trim(ps[0].key) == COMMENT then [] else [Pair(Trim(ps[0].key), ps[0].value)]) + ReadAll(Message(ps[1..]))
  {
    hide ReadItem, Item, Trim, Message;
    var s, m := Message(ps), Message(ps[1..]);
    var n := |Item(ps[0].key, ps[0].value)|;
    ReadFirst(ps);
    if Trim(ps[0].key) == COMMENT {
      var q := ReadItem(m);
      if m != [] && q.Parsed? && q.taken <= |m| {
        assert s[q.taken + n..] == m[q.taken..];
      }
      if m == [] { EmptyFails(); }
      assert [] + ReadAll(m) == ReadAll(m);
    }
  }

  lemma EmptyFails()
    ensures ReadItem([]) == Failed(ErrFormat)
  {
  }
}
