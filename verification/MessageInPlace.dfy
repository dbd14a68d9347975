/** What reading a message does to its bytes, msg.c. The source caps keys and values with NULs in the
    message itself, and takes a length as signed, so that an item can reach in front of itself. */
module MessageInPlace {
  import opened Bytes
  import opened MessageFormat

  /** What a call gives, where the next item starts, and the bytes of the message, with the NUL that
      closes it. */
  datatype Result = Result(st: Status, key: Bytes, valueAt: nat, valuel: int, next: nat, d: Bytes)

  function Failure(st: Status, at: nat, d: Bytes): Result {
    Result(st, [], 0, 0, at, d)
  }

  function Zeros(n: nat): (z: Bytes)
    ensures |z| == n && forall i :: 0 <= i < n ==> z[i] == 0
  {
    seq(n, _ => 0)
  }

  /** A key whose white space at the end is overwritten. */
  function CutKey(k: Bytes): (c: Bytes)
    ensures |c| == |k| && forall i :: 0 <= i < |k| ==> c[i] == k[i] || c[i] == 0
  {
    var t := TrimLeft(k);
    var kept := |k| - |t| + |TrimRight(t)|;
    k[..kept] + Zeros(|k| - kept)
  }

  /** How far from `at` the separator of an item is, or -1. */
  function SeparatorAt(d: Bytes, at: nat): (eq: int)
    requires at < |d|
    ensures -1 <= eq < |d| - 1 - at
    ensures eq >= 0 ==> d[at + eq] == SEPARATOR
  {
    FindSeparator(d[at..|d| - 1])
  }

  /** rim_parse_item, for an item at `at` of the message d. */
  function ParseAt(d: Bytes, at: nat): (r: Result)
    requires at < |d|
    ensures |r.d| == |d|
  {
    var eq := SeparatorAt(d, at);
    if eq < 0 then Failure(ErrFormat, at, d)
    else ValueAt(Capped(d, at, eq), at, at + eq + 1, Trim(d[at..at + eq]))
  }

  /** The message once its key is cut and the separator is overwritten. */
  function Capped(d: Bytes, at: nat, eq: nat): (c: Bytes)
    requires at + eq + 1 < |d|
    ensures |c| == |d| && c[at + eq] == 0
    ensures forall i :: 0 <= i < |d| && (i < at || i > at + eq) ==> c[i] == d[i]
    ensures forall i :: 0 <= i < |d| ==> c[i] == d[i] || c[i] == 0
  {
    Replaced(d, at, eq, CutKey(d[at..at + eq]))
  }

  function Replaced(d: Bytes, at: nat, eq: nat, cut: Bytes): (c: Bytes)
    requires at + eq + 1 < |d| && |cut| == eq
    requires forall i :: 0 <= i < eq ==> cut[i] == d[at..at + eq][i] || cut[i] == 0
    ensures |c| == |d| && c[at + eq] == 0
    ensures forall i :: 0 <= i < |d| && (i < at || i > at + eq) ==> c[i] == d[i]
    ensures forall i :: 0 <= i < |d| ==> c[i] == d[i] || c[i] == 0
  {
    d[..at] + cut + [0] + d[at + eq + 1..]
  }

  /** The length that is at beg. */
  function LengthAt(d: Bytes, beg: nat): int
    requires beg + 8 <= |d|
  {
    Signed64(FromBigEndian(d[beg..beg + 8]))
  }

  lemma LengthIsThat(d: Bytes, beg: nat)
    requires beg + ALIGN < |d|
    ensures ValueLength(d[beg..|d| - 1]) == LengthAt(d, beg)
  {
    assert d[beg..|d| - 1][..8] == d[beg..beg + 8];
  }

  lemma SameLength(c: Bytes, d: Bytes, beg: nat)
    requires beg + 8 <= |d| == |c| && forall i :: beg <= i < |d| ==> c[i] == d[i]
    ensures LengthAt(c, beg) == LengthAt(d, beg)
  {
    assert c[beg..beg + 8] == d[beg..beg + 8];
  }

  /** The part behind the separator. A negative length goes back from where the value would start. */
  function ValueAt(d: Bytes, at: nat, beg: nat, key: Bytes): (r: Result)
    requires beg < |d|
    ensures |r.d| == |d|
  {
    var len := |d| - 1 - beg;
    if len < ALIGN then Failure(ErrFormat, at, d)
    else
      var vl := LengthAt(d, beg);
      var end := beg + ALIGN + vl;
      if len - ALIGN < vl then Failure(ErrLength, at, d)
      else if end < 0 then Failure(Outside, at, d)
      else if d[end] != NEWLINE && d[end] != 0 then Failure(ErrLength, at, d)
      else Result(Okay, key, beg + ALIGN, vl, end + 1, d[end := 0])
  }

  /** How many separators there are. */
  function Separators(d: Bytes): nat {
    if d == [] then 0 else Separators(d[..|d| - 1]) + if d[|d| - 1] == SEPARATOR then 1 else 0
  }

  lemma {:induction false} FewerSeparators(d: Bytes, e: Bytes, k: nat)
    requires |d| == |e| && forall i :: 0 <= i < |d| ==> e[i] == d[i] || e[i] == 0
    ensures Separators(e) <= Separators(d)
    ensures k < |d| && d[k] == SEPARATOR && e[k] == 0 ==> Separators(e) < Separators(d)
  {
    if d != [] { FewerSeparators(d[..|d| - 1], e[..|e| - 1], k); }
  }

  /** What an item that is taken looks like: its separator, its length and its end, which the length
      counts from where the value starts. */
  lemma TakenItem(d: Bytes, at: nat) returns (eq: nat, c: Bytes)
    requires at < |d| && ParseAt(d, at).st == Okay
    ensures at + eq + 1 + ALIGN < |d| == |c| && d[at + eq] == SEPARATOR && c[at + eq] == 0
    ensures forall i :: 0 <= i < |d| && (i < at || i > at + eq) ==> c[i] == d[i]
    ensures forall i :: 0 <= i < |d| ==> c[i] == d[i] || c[i] == 0
    ensures var r := ParseAt(d, at);
      && r.valueAt == at + eq + 1 + ALIGN && r.valuel == LengthAt(d, at + eq + 1)
      && 0 <= r.valueAt + r.valuel == r.next - 1 < |d| && r.d == c[r.next - 1 := 0]
  {
    hide LengthAt, Trim, Capped, SeparatorAt;
    eq := SeparatorAt(d, at);
    c := Capped(d, at, eq);
    if at + eq + 1 + 8 <= |d| { SameLength(c, d, at + eq + 1); }
  }

  /** An item that is parsed loses its separator, so that reading ends however lengths lead back. */
  lemma ParsedLosesSeparator(d: Bytes, at: nat)
    requires at < |d| && ParseAt(d, at).st == Okay
    ensures Separators(ParseAt(d, at).d) < Separators(d)
  {
    hide ParseAt, LengthAt, Separators, SeparatorAt;
    var eq, c := TakenItem(d, at);
    FewerSeparators(d, ParseAt(d, at).d, at + eq);
  }

  /** rim_read_msg from `at` on: comments are passed. */
  function ReadAt(d: Bytes, at: nat): (r: Result)
    requires at < |d|
    ensures |r.d| == |d|
    decreases Separators(d)
  {
    var p := ParseAt(d, at);
    if p.st == Okay && p.key == COMMENT then
      if p.next >= |d| then p.(st := Outside)
      else ParsedLosesSeparator(d, at); ReadAt(p.d, p.next)
    else p
  }

  // ---------- lengths that are not negative ----------

  /** What the format says about what is left of the message is what happens in place: the item and
      nothing in front of it or behind it changes. */
  ghost predicate Meets(p: Parsed, d: Bytes, at: nat, r: Result) {
    && |r.d| == |d|
    && (forall i :: 0 <= i < |d| && i < at ==> r.d[i] == d[i])
    && match p
       case Failed(st) => r.st == st
       case Parsed(k, v, taken) =>
         && r.st == Okay && r.key == k && r.valuel == |v| && r.next == at + taken
         && at + ALIGN < r.valueAt && r.valueAt + |v| + 1 <= r.next <= |d|
         && r.d[r.valueAt..r.valueAt + |v|] == v && r.d[r.valueAt + |v|] == 0
         && (forall i :: r.next <= i < |d| ==> r.d[i] == d[i])
  }

  lemma {:induction false} ValueMeets(d: Bytes, at: nat, beg: nat, key: Bytes)
    requires at < beg < |d| && d[|d| - 1] == 0 && ParseValue(key, d[beg..|d| - 1], beg - at) != Failed(Negative)
    ensures var p, r := ParseValue(key, d[beg..|d| - 1], beg - at), ValueAt(d, at, beg, Trim(key));
      Meets(p, d, at, r)
  {
    hide ValueLength, LengthAt, Trim;
    var s := d[beg..|d| - 1];
    if |s| >= ALIGN { LengthIsThat(d, beg); }
    var r := ValueAt(d, at, beg, Trim(key));
    if |s| >= ALIGN && 0 <= ValueLength(s) <= |s| - ALIGN {
      var n := ValueLength(s);
      assert n < |s| - ALIGN ==> s[ALIGN + n] == d[beg + ALIGN + n];
      if r.st == Okay {
        assert d[r.valueAt..r.valueAt + n] == s[ALIGN..ALIGN + n];
        assert r.d[r.valueAt..r.valueAt + n] == d[r.valueAt..r.valueAt + n];
      }
    }
  }

  lemma SliceFront(d: Bytes, at: nat, n: nat)
    requires at + n < |d|
    ensures d[at..|d| - 1][..n] == d[at..at + n]
  {
  }

  lemma SliceBack(c: Bytes, d: Bytes, at: nat, n: nat)
    requires at + n + 1 < |d| == |c| && forall i :: at + n < i < |d| ==> c[i] == d[i]
    ensures c[at + n + 1..|d| - 1] == d[at..|d| - 1][n + 1..]
  {
    var x, y := c[at + n + 1..|d| - 1], d[at..|d| - 1][n + 1..];
    assert forall i :: 0 <= i < |x| ==> x[i] == c[at + n + 1 + i] == d[at + n + 1 + i] == y[i];
  }

  lemma CappedMeets(p: Parsed, d: Bytes, at: nat, eq: nat, r: Result)
    requires at + eq + 1 < |d| && Meets(p, Capped(d, at, eq), at, r)
    requires p.Parsed? ==> p.taken > eq + 1
    ensures Meets(p, d, at, r)
  {
    hide Capped;
  }

  lemma NothingMeets(d: Bytes, at: nat)
    ensures Meets(Failed(ErrFormat), d, at, Failure(ErrFormat, at, d))
  {
  }

  lemma {:induction false} ParseMeets(d: Bytes, at: nat)
    requires at < |d| && d[|d| - 1] == 0 && ParseItem(d[at..|d| - 1]) != Failed(Negative)
    ensures Meets(ParseItem(d[at..|d| - 1]), d, at, ParseAt(d, at))
  {
    hide ValueAt, ParseValue, Trim, CutKey, Capped, FindSeparator, Meets;
    var s := d[at..|d| - 1];
    var eq := FindSeparator(s);
    if eq >= 0 {
      var c := Capped(d, at, eq);
      SliceFront(d, at, eq);
      SliceBack(c, d, at, eq);
      ValueMeets(c, at, at + eq + 1, s[..eq]);
      CappedMeets(ParseItem(s), d, at, eq, ParseAt(d, at));
    } else {
      NothingMeets(d, at);
    }
  }

  /** The NUL that closes the message stays. */
  lemma ParseKeepsEnd(d: Bytes, at: nat)
    requires at < |d| && d[|d| - 1] == 0
    ensures ParseAt(d, at).d[|d| - 1] == 0
  {
    hide LengthAt, Trim, Capped, SeparatorAt;
  }

  /** As long as no length is negative, a read does what the format says: it gives the next pair that
      is no comment, changes nothing in front, and leaves what follows as it was. */
  lemma {:induction false} ReadMeets(d: Bytes, at: nat)
    requires at < |d| && d[|d| - 1] == 0 && ReadItem(d[at..|d| - 1]) != Failed(Negative)
    ensures Meets(ReadItem(d[at..|d| - 1]), d, at, ReadAt(d, at))
    decreases |d| - at
  {
    hide ParseItem, ParseAt, Meets, ReadItem;
    var s := d[at..|d| - 1];
    var p, r := ParseItem(s), ParseAt(d, at);
    ReadTurn(s);
    ParseMeets(d, at);
    ParseKeepsEnd(d, at);
    if p.Parsed? && p.key == COMMENT {
      CommentMeets(p, d, at, r);
      if p.taken <= |s| {
        ReadMeets(r.d, r.next);
        FurtherMeets(p, d, at, r, ReadItem(s[p.taken..]), ReadAt(r.d, r.next));
      } else {
        FailureMeets(p, d, at, r);
      }
    } else {
      NoComment(p, d, at, r);
    }
  }

  lemma NoComment(p: Parsed, d: Bytes, at: nat, r: Result)
    requires Meets(p, d, at, r) && !(p.Parsed? && p.key == COMMENT) && (p.Failed? ==> p.st != Okay)
    ensures !(r.st == Okay && r.key == COMMENT)
  {
  }

  /** One turn of reading. */
  lemma ReadTurn(s: Bytes)
    ensures var p := ParseItem(s);
      ReadItem(s) ==
        if p.Parsed? && p.key == COMMENT then
          if p.taken > |s| then Failed(Outside) else Further(ReadItem(s[p.taken..]), p.taken)
        else p
  {
    hide ParseItem;
  }

  function Further(p: Parsed, n: nat): Parsed {
    if p.Parsed? then p.(taken := p.taken + n) else p
  }

  lemma CommentMeets(p: Parsed, d: Bytes, at: nat, r: Result)
    requires at < |d| && Meets(p, d, at, r) && p.Parsed? && p.key == COMMENT
    ensures r.st == Okay && r.key == COMMENT && r.next == at + p.taken > at
    ensures p.taken <= |d| - 1 - at ==> r.next < |d| == |r.d| && r.d[r.next..|d| - 1] == d[at..|d| - 1][p.taken..]
  {
  }

  lemma FurtherMeets(p: Parsed, d: Bytes, at: nat, r: Result, q: Parsed, r2: Result)
    requires at < |d| && Meets(p, d, at, r) && p.Parsed? && Meets(q, r.d, r.next, r2)
    ensures Meets(Further(q, p.taken), d, at, r2)
  {
  }

  lemma FailureMeets(p: Parsed, d: Bytes, at: nat, r: Result)
    requires at < |d| && Meets(p, d, at, r) && p.Parsed?
    ensures Meets(Failed(Outside), d, at, r.(st := Outside))
  {
  }

  // ---------- any length ----------

  /** An item that is taken ends behind the place where its value starts, with nothing in front of it
      changed, if and only if its length is not negative; that is when the first byte of the length is
      below 128. It moves forward at all exactly when the length does not lead in front of it. */
  lemma {:induction false} StaysInsideIffNotNegative(d: Bytes, at: nat)
    requires at < |d| && ParseAt(d, at).st == Okay
    ensures var r := ParseAt(d, at);
      && at + ALIGN < r.valueAt < |d|
      && (d[r.valueAt - ALIGN] < 128 <==> r.valuel >= 0)
      && ((r.next > r.valueAt && SameFront(d, r.d, at)) <==> r.valuel >= 0)
      && ((r.next > at && SameFront(d, r.d, at)) <==> r.valueAt + r.valuel >= at)
  {
    hide ParseAt, Signed64, FromBigEndian;
    var eq, c := TakenItem(d, at);
    NegativeIffTopBit(d[at + eq + 1..at + eq + 9]);
    hide LengthAt;
    assert ParseAt(d, at).next > at ==> SameFront(d, ParseAt(d, at).d, at);
  }

  ghost predicate SameFront(d: Bytes, e: Bytes, at: nat)
    requires |d| == |e|
  {
    forall i :: 0 <= i < |d| && i < at ==> e[i] == d[i]
  }

  /** A key of one letter, a separator and a length that is negative: where the item is taken. */
  lemma {:induction false} ShortItemLeadsBack(d: Bytes, at: nat, k: byte, vl: int)
    requires at + 18 < |d| && d[at] == k && KeyChar(k) && !IsSpace(k) && d[at + 1] == SEPARATOR
    requires Signed64(FromBigEndian(d[at + 2..at + 10])) == vl < 0 <= at + 18 + vl
    requires at + 18 + vl < at || at + 1 <= at + 18 + vl
    requires at + 18 + vl == at + 1 || d[at + 18 + vl] == NEWLINE || d[at + 18 + vl] == 0
    ensures var r := ParseAt(d, at);
      && r.st == Okay && r.key == [k] && r.valueAt == at + 18 && r.valuel == vl
      && r.next == at + 18 + vl + 1 && r.d[at + 18 + vl] == 0
    ensures ParseItem(d[at..|d| - 1]) == Failed(Negative)
  {
    hide Signed64, FromBigEndian, Capped, CutKey, Trim, FindSeparator;
    var s := d[at..|d| - 1];
    FirstSeparator(s, k);
    OneLetter(k);
    var c := Capped(d, at, 1);
    assert d[at..at + 1] == [k];
    SameLength(c, d, at + 2);
    SliceBack(d, d, at, 1);
    LengthIsThat(d, at + 2);
    assert SeparatorAt(d, at) == 1;
  }

  lemma OneLetter(k: byte)
    requires !IsSpace(k)
    ensures Trim([k]) == [k]
  {
  }

  lemma FirstSeparator(s: Bytes, k: byte)
    requires |s| > 1 && s[0] == k && KeyChar(k) && s[1] == SEPARATOR
    ensures FindSeparator(s) == 1 && s[..1] == [k]
  {
    assert FindSeparator(s[1..]) == 0;
  }

  function Ones(n: nat): (s: Bytes)
    ensures |s| == n && forall i :: 0 <= i < n ==> s[i] == 255
  {
    seq(n, _ => 255)
  }

  lemma {:induction false} OnesAre(n: nat)
    ensures FromBigEndian(Ones(n)) == Power256(n) - 1
  {
    if n > 0 {
      assert Ones(n)[..n - 1] == Ones(n - 1);
      OnesAre(n - 1);
    }
  }

  /** Seven bytes of ones and a last one give a small negative length. */
  lemma {:induction false} OnesThen(f: Bytes, b: byte)
    requires |f| == 8 && f[..7] == Ones(7) && f[7] == b
    ensures Signed64(FromBigEndian(f)) == b - 256
  {
    OnesAre(7);
    PowerOf8();
    assert Power256(8) == 256 * Power256(7);
    assert FromBigEndian(f) == FromBigEndian(f[..7]) * 256 + b;
  }

  /** The message with key `a` and a length of all ones. */
  function AllOnes(): Bytes {
    [97, SEPARATOR] + (Ones(8) + (EIGHT_ZEROS + [0]))
  }

  /** It is taken: the length of the value is -1, and the next item starts where the value does. */
  lemma {:induction false} AllOnesIsTaken()
    ensures var d, r := AllOnes(), ParseAt(AllOnes(), 0);
      |d| == 19 && r.st == Okay && r.key == [97] && r.valueAt == 18 && r.valuel == -1 && r.next == 18
  {
    hide Signed64, FromBigEndian, ParseAt;
    var d := AllOnes();
    var f := d[2..10];
    assert forall i :: 0 <= i < 8 ==> f[i] == d[i + 2] == Ones(8)[i];
    assert f[..7] == Ones(7) && d[17] == 0;
    OnesThen(f, 255);
    ShortItemLeadsBack(d, 0, 97, -1);
  }

  /** A message of two items: key `a` with a newline as its value, and key `b` with the length -20. */
  function TwoItems(): Bytes {
    [97, SEPARATOR] + ([0, 0, 0, 0, 0, 0, 0, 1] + (EIGHT_ZEROS + ([NEWLINE, NEWLINE]
    + ([98, SEPARATOR] + (Ones(7) + [236] + (EIGHT_ZEROS + [0]))))))
  }

  /** A key of one letter, a separator and the length 1: the item is taken. */
  lemma {:induction false} ShortItemIsTaken(d: Bytes, at: nat, k: byte)
    requires at + 20 < |d| && d[at] == k && KeyChar(k) && !IsSpace(k) && d[at + 1] == SEPARATOR
    requires Signed64(FromBigEndian(d[at + 2..at + 10])) == 1 && d[at + 19] == NEWLINE
    ensures var r := ParseAt(d, at);
      && r.st == Okay && r.key == [k] && r.valueAt == at + 18 && r.valuel == 1 && r.next == at + 20
      && r.d == d[at + 1 := 0][at + 19 := 0]
  {
    hide Signed64, FromBigEndian, Capped, Trim, FindSeparator;
    FirstSeparator(d[at..|d| - 1], k);
    OneLetter(k);
    assert d[at..at + 1] == [k];
    SeparatorCapped(d, at, k);
    SameLength(Capped(d, at, 1), d, at + 2);
    assert SeparatorAt(d, at) == 1;
  }

  lemma SeparatorCapped(d: Bytes, at: nat, k: byte)
    requires at + 2 < |d| && d[at..at + 1] == [k] && !IsSpace(k)
    ensures Capped(d, at, 1) == d[at + 1 := 0]
  {
    assert CutKey([k]) == [k] + Zeros(0) == [k];
    assert d[..at] + [k] + [0] + d[at + 2..] == d[at + 1 := 0];
  }

  lemma OneIsOne(f: Bytes)
    requires f == [0, 0, 0, 0, 0, 0, 0, 1]
    ensures Signed64(FromBigEndian(f)) == 1
  {
    assert f == BigEndian(1, 8) by { OneInBytes(); }
    PowerOf8();
    BigEndianBack(1, 8);
  }

  lemma OneInBytes()
    ensures BigEndian(1, 8) == [0, 0, 0, 0, 0, 0, 0, 1]
  {
    assert BigEndian(0, 2) == [0, 0];
    assert BigEndian(0, 4) == BigEndian(0, 3) + [0] == [0, 0, 0, 0];
    assert BigEndian(0, 6) == BigEndian(0, 5) + [0] == [0, 0, 0, 0, 0, 0];
    assert BigEndian(0, 7) == [0, 0, 0, 0, 0, 0, 0];
  }

  /** The first read gives the newline. The second item is taken too, overwrites that value, and the
      next read would start in front of it. */
  lemma {:induction false} LeadsBackOverwrites()
    ensures var m, r := TwoItems(), ParseAt(TwoItems(), 0);
      && |m| == 39 && m[38] == 0
      && r.st == Okay && r.key == [97] && r.valueAt == 18 && r.valuel == 1 && r.next == 20 && r.d[18..19] == [NEWLINE]
      && var r2 := ParseAt(r.d, r.next);
         r2.st == Okay && r2.key == [98] && r2.valuel == -20 && r2.d[18..19] == [0] && r2.next == 19
  {
    hide Signed64, FromBigEndian, ParseAt;
    var m := TwoItems();
    OneIsOne(m[2..10]);
    ShortItemIsTaken(m, 0, 97);
    SecondLeadsBack(m[1 := 0][19 := 0]);
  }

  lemma SecondLeadsBack(d: Bytes)
    requires d == TwoItems()[1 := 0][19 := 0]
    ensures |d| == 39 && d[18] == NEWLINE
    ensures var r := ParseAt(d, 20);
      r.st == Okay && r.key == [98] && r.valuel == -20 && r.d[18] == 0 && r.next == 19
  {
    hide Signed64, FromBigEndian, ParseAt;
    assert d[20] == 98 && d[21] == SEPARATOR && d[18] == NEWLINE;
    var f := d[22..30];
    assert forall i :: 0 <= i < 8 ==> f[i] == d[i + 22] == (Ones(7) + [236])[i];
    assert f[..7] == Ones(7);
    OnesThen(f, 236);
    ShortItemLeadsBack(d, 20, 98, -20);
  }
}
