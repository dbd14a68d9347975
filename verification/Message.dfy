/** msg.c: a message built in a growing buffer and parsed in place. */
module Message {
  import opened Bytes
  import opened MessageFormat
  import opened MessageInPlace

  const BUFF_LEN := 1024
  const ADD_LEN := 30

  datatype Mode = NoMode | Reading | Writing

  class Msg {
    var data: array<byte>
    var len: nat
    var tot: int
    var addinc: int
    var curr: nat
    var mode: Mode

    ghost predicate Valid()
      reads this, data
    {
      && len < data.Length && data[len] == 0
      && (mode.Writing? ==> curr == len && (curr == 0 || tot == data.Length))
      && (mode.Writing? && curr > 0 ==> addinc > 0)
      && (mode.NoMode? ==> len == 0)
    }

    /** The message written, and what is left to read. */
    ghost function Written(): Bytes
      requires len < data.Length
      reads this, data
    {
      data[..len]
    }

    ghost function Left(): Bytes
      requires len < data.Length
      reads this, data
    {
      if !mode.Reading? then data[..len] else if curr <= len then data[curr..len] else []
    }

    /** rim_new_msg without a text to start from. */
    constructor ()
      ensures Valid() && mode == NoMode && Written() == [] && fresh(data)
    {
      data := new byte[1](_ => 0);
      len, curr, tot, addinc, mode := 0, 0, 0, BUFF_LEN, NoMode;
    }

    /** rim_new_msg from a text: it can only be read. */
    constructor From(from: array<byte>, l: nat)
      requires l < from.Length && from[l] == 0
      ensures Valid() && mode == Reading && data == from && len == l && Left() == from[..l]
    {
      data := from;
      len, curr, tot, addinc, mode := l, 0, 0, BUFF_LEN, Reading;
    }

    /** Room for an item: a first buffer, or one that has grown. Nothing written is lost. */
    method MakeRoom(keyl: nat, valuel: nat)
      requires Valid() && mode.Writing?
      modifies this`data, this`tot, this`addinc
      ensures Valid() && Written() == old(Written()) && tot == data.Length && addinc > 0
      ensures addinc == if curr == 0 then BUFF_LEN else if old(addinc) <= 4096 then 2 * old(addinc)
                        else if old(tot) > 8 * old(addinc) then old(tot) / 4 else old(addinc)
      ensures var needed := len + keyl + valuel + ADD_LEN;
        if curr > 0 && needed <= old(tot) then data == old(data) else fresh(data) && tot == needed + addinc
      ensures len + keyl + valuel + ADD_LEN <= tot
    {
      if curr == 0 {
        addinc := BUFF_LEN;
        tot := keyl + valuel + ADD_LEN + addinc;
        data := new byte[tot](_ => 0);
      } else {
        if addinc <= 4096 {
          addinc := addinc * 2;
        } else if tot > 8 * addinc {
          addinc := tot / 4;
        }
        if tot < len + keyl + valuel + ADD_LEN {
          tot := len + keyl + valuel + ADD_LEN + addinc;
          var old_data := data;
          data := new byte[tot](_ => 0);
          forall i | 0 <= i <= len { data[i] := old_data[i]; }
          assert data[..len] == old_data[..len];
        }
      }
    }

    /** memcpy into the buffer. */
    method Copy(at: nat, s: Bytes)
      requires at + |s| <= data.Length
      modifies data
      ensures data[at..at + |s|] == s
      ensures forall i :: 0 <= i < data.Length && !(at <= i < at + |s|) ==> data[i] == old(data[i])
    {
      var i := 0;
      while i < |s|
        invariant 0 <= i <= |s| && data[at..at + i] == s[..i]
        invariant forall j :: 0 <= j < data.Length && !(at <= j < at + i) ==> data[j] == old(data[j])
      {
        data[at + i] := s[i];
        assert data[at..at + (i + 1)] == data[at..at + i] + [s[i]];
        i := i + 1;
      }
      assert s[..i] == s;
    }

    /** memcpy behind what is written so far. */
    method Append(at: nat, s: Bytes, ghost front: Bytes)
      requires at + |s| <= data.Length && data[..at] == front
      modifies data
      ensures data[..at + |s|] == front + s
    {
      Copy(at, s);
      assert data[..at] == front;
      assert data[..at + |s|] == data[..at] + data[at..at + |s|];
    }

    /** The copies that make an item, and the NUL behind it. */
    method PutItem(key: Bytes, value: Bytes)
      requires len == curr && len + |key| + |value| + ADD_LEN <= data.Length
      modifies data
      ensures data[..len + |Item(key, value)|] == old(data[..len]) + Item(key, value)
      ensures data[len + |Item(key, value)|] == 0
    {
      hide LengthField, BigEndian;
      ghost var was := data[..curr];
      ghost var a, field := was + key + [SEPARATOR], LengthField(|value|);
      var lengthAt := curr + |key| + 1;
      var valueAt := lengthAt + ALIGN;
      Append(curr, key, was);
      Append(curr + |key|, [SEPARATOR], was + key);
      Append(lengthAt, LengthField(|value|), a);
      Append(valueAt, value + [0], a + field);
      assert data[..valueAt + |value|] == a + field + value;
      Append(valueAt + |value|, [NEWLINE], a + field + value);
      var end := valueAt + |value| + 1;
      data[end] := 0;
      assert data[..end] == a + field + value + [NEWLINE];
      ItemParts(was, key, value);
    }

    lemma ItemParts(was: Bytes, key: Bytes, value: Bytes)
      ensures was + key + [SEPARATOR] + LengthField(|value|) + value + [NEWLINE] == was + Item(key, value)
    {
      hide LengthField;
    }

    /** rim_write_msg. It fails once the message has been read and for a key with other characters
        than letters, digits, white space, `-` and `_`. */
    method WriteMsg(key: Bytes, value: Bytes) returns (ok: bool)
      requires Valid()
      modifies this, data
      ensures Valid() && ok == (!old(mode).Reading? && ValidKey(key))
      ensures ok ==> mode.Writing? && Written() == old(Written()) + Item(key, value)
      ensures !ok ==> Written() == old(Written()) && data == old(data)
      ensures data == old(data) || fresh(data)
    {
      if mode.Reading? { return false; }
      if mode.NoMode? {
        curr := 0;
        addinc := BUFF_LEN;
        mode := Writing;
      }
      var i := 0;
      while i < |key|
        invariant 0 <= i <= |key| && forall j :: 0 <= j < i ==> KeyChar(key[j])
      {
        if !KeyChar(key[i]) { return false; }
        i := i + 1;
      }
      MakeRoom(|key|, |value|);
      PutItem(key, value);
      len := len + |key| + 1 + ALIGN + |value| + 1;
      curr := len;
      ok := true;
    }

    // ---------- reading ----------

    /** strstr for the separator from `at`; the message is closed by a NUL at `at + n`. */
    method FindEq(at: nat, n: nat) returns (eq: int)
      requires at + n < data.Length && data[at + n] == 0
      ensures var r := FindSeparator(data[at..at + n]); eq == if r < 0 then -1 else at + r
    {
      var i := at;
      while data[i] != 0
        invariant at <= i <= at + n
        invariant var r, q := FindSeparator(data[at..at + n]), FindSeparator(data[i..at + n]);
          if q < 0 then r < 0 else at + r == i + q
        decreases at + n - i
      {
        if data[i] == SEPARATOR { return i; }
        assert data[i..at + n][1..] == data[i + 1..at + n];
        i := i + 1;
      }
      eq := -1;
    }

    /** White space in front of the key is passed. */
    method PassSpace(at: nat, eq: nat) returns (kb: nat)
      requires at <= eq < data.Length && data[eq] == 0
      ensures at <= kb <= eq && data[kb..eq] == TrimLeft(data[at..eq])
    {
      hide TrimLeft;
      kb := at;
      while IsSpace(data[kb])
        invariant at <= kb <= eq && forall i :: at <= i < kb ==> IsSpace(data[i])
        decreases eq - kb
      {
        kb := kb + 1;
      }
      TrimLeftIs(data[at..eq], kb - at);
    }

    /** White space behind the key is overwritten. */
    method CutSpace(kb: nat, eq: nat) returns (kl: nat)
      requires kb <= eq < data.Length && (kb < eq ==> !IsSpace(data[kb]))
      modifies data
      ensures kb + kl <= eq && data[kb..kb + kl] == TrimRight(old(data[kb..eq]))
      ensures forall i :: kb + kl <= i < eq ==> data[i] == 0
      ensures forall i :: 0 <= i < data.Length && !(kb + kl <= i < eq) ==> data[i] == old(data[i])
    {
      hide TrimRight;
      ghost var t := data[kb..eq];
      assert t != [] ==> t[0] == data[kb];
      kl := eq - kb;
      while kl > 1 && IsSpace(data[kb + kl - 1])
        invariant 0 <= kl <= eq - kb && (kl == 0 ==> kb == eq)
        invariant forall i :: kb + kl <= i < eq ==> data[i] == 0
        invariant forall j :: kl <= j < |t| ==> IsSpace(t[j])
        invariant forall i :: 0 <= i < data.Length && !(kb + kl <= i < eq) ==> data[i] == old(data[i])
      {
        assert data[kb + kl - 1] == t[kl - 1];
        data[kb + kl - 1] := 0;
        kl := kl - 1;
      }
      assert kl > 0 ==> data[kb + kl - 1] == t[kl - 1];
      TrimRightIs(t, kl);
      assert data[kb..kb + kl] == t[..kl];
    }

    method TrimKey(at: nat, eq: nat) returns (key: Bytes)
      requires at <= eq < data.Length && data[eq] == 0
      modifies data
      ensures key == Trim(old(data[at..eq])) && data[at..eq] == CutKey(old(data[at..eq]))
      ensures forall i :: 0 <= i < data.Length && !(at <= i < eq) ==> data[i] == old(data[i])
    {
      hide TrimLeft, TrimRight;
      ghost var k := data[at..eq];
      var kb := PassSpace(at, eq);
      assert kb < eq ==> data[kb] == data[kb..eq][0];
      var kl := CutSpace(kb, eq);
      key := data[kb..kb + kl];
      ghost var kept := kb - at + kl;
      assert |TrimLeft(k)| == eq - kb && |TrimRight(TrimLeft(k))| == kl;
      assert data[at..eq] == k[..kept] + Zeros(|k| - kept);
    }

    /** The message as a whole, with the NUL that closes it. */
    ghost function Whole(): Bytes
      requires len < data.Length
      reads this, data
    {
      data[..len + 1]
    }

    /** rim_parse_item, for the item at `at`. The value stays in the message, from valueAt on. */
    method Parse(at: nat) returns (st: Status, key: Bytes, valueAt: nat, valuel: int, next: nat)
      requires at <= len < data.Length && data[len] == 0
      modifies data
      ensures var r := ParseAt(old(Whole()), at);
        && st == r.st && next == r.next && Whole() == r.d
        && (st == Okay ==> key == r.key && valueAt == r.valueAt && valuel == r.valuel)
    {
      hide Trim, FindSeparator, ValueAt, CutKey, Capped;
      ghost var d := Whole();
      key, valueAt, valuel, next := [], 0, 0, at;
      data[len] := 0;
      assert Whole() == d && data[at..len] == d[at..len];
      var eq := FindEq(at, len - at);
      if eq < 0 { return ErrFormat, key, valueAt, valuel, next; }
      key := CapKey(at, eq);
      st, valueAt, valuel, next := TakeValue(at, eq + 1, key);
    }

    /** The key is taken, its separator overwritten first. */
    method CapKey(at: nat, eq: nat) returns (key: Bytes)
      requires at <= eq < len < data.Length
      modifies data
      ensures key == Trim(old(Whole())[at..eq]) && Whole() == Capped(old(Whole()), at, eq - at)
    {
      hide Trim, CutKey;
      ghost var d := Whole();
      data[eq] := 0;
      ghost var k := data[at..eq];
      forall i | 0 <= i < |k| ensures k[i] == d[at..eq][i] { assert k[i] == data[at + i] == d[at + i]; }
      assert k == d[at..eq];
      key := TrimKey(at, eq);
      AsCapped(d, Whole(), at, eq, CutKey(k));
    }

    lemma AsCapped(d: Bytes, e: Bytes, at: nat, eq: nat, cut: Bytes)
      requires at <= eq && eq + 1 < |d| == |e| && cut == CutKey(d[at..eq]) && e[at..eq] == cut && e[eq] == 0
      requires forall i :: 0 <= i < |d| && (i < at || i > eq) ==> e[i] == d[i]
      ensures e == Capped(d, at, eq - at)
    {
      hide CutKey;
      assert e == e[..at] + e[at..eq] + [e[eq]] + e[eq + 1..];
      assert e[..at] == d[..at] && e[eq + 1..] == d[eq + 1..];
    }

    /** The part of rim_parse_item behind the separator. The end of the value is found by its length,
        which as a signed number may lead back. */
    method TakeValue(at: nat, beg: nat, key: Bytes) returns (st: Status, valueAt: nat, valuel: int, next: nat)
      requires beg <= len < data.Length
      modifies data
      ensures var r := ValueAt(old(Whole()), at, beg, key);
        && st == r.st && next == r.next && Whole() == r.d
        && (st == Okay ==> key == r.key && valueAt == r.valueAt && valuel == r.valuel)
    {
      hide FromBigEndian, Signed64;
      valueAt, valuel, next := 0, 0, at;
      ghost var d := Whole();
      if len - beg < ALIGN { return ErrFormat, valueAt, valuel, next; }
      assert d[beg..beg + 8] == data[beg..beg + 8];
      valuel := Signed64(FromBigEndian(data[beg..beg + 8]));
      if len - beg - ALIGN < valuel { return ErrLength, valueAt, valuel, next; }
      valueAt := beg + ALIGN;
      if valueAt + valuel < 0 { return Outside, valueAt, valuel, next; }
      if data[valueAt + valuel] != NEWLINE && data[valueAt + valuel] != 0 { return ErrLength, valueAt, valuel, next; }
      data[valueAt + valuel] := 0;
      next := valueAt + valuel + 1;
      st := Okay;
    }

    /** rim_mem_add_const: the value becomes a block of its own, whose header takes the place of the
        length in front of it. */
    method AddConst(valueAt: nat)
      requires ALIGN <= valueAt <= data.Length
      modifies data
      ensures forall i :: 0 <= i < data.Length && !(valueAt - ALIGN <= i < valueAt) ==> data[i] == old(data[i])
    {
      assert |LengthField(0)| == ALIGN;
      var header: Bytes :| |header| == ALIGN;
      Copy(valueAt - ALIGN, header);
    }

    /** The bytes are those of r, but for the header of a value that was given. */
    ghost predicate ButHeader(r: Result)
      requires len < data.Length
      reads this, data
    {
      |r.d| == len + 1 && forall i :: 0 <= i <= len && !(r.st == Okay && r.valueAt - ALIGN <= i < r.valueAt) ==> data[i] == r.d[i]
    }

    /** The loop of rim_read_msg: comments are passed. */
    method ReadFrom() returns (st: Status, key: Bytes, valueAt: nat, valuel: int)
      requires Valid() && mode.Reading? && curr <= len
      modifies this`curr, data
      ensures Valid()
      ensures var r := ReadAt(old(Whole()), old(curr));
        && st == r.st && curr == r.next && ButHeader(r)
        && (st == Okay ==> key == r.key && valueAt == r.valueAt && valuel == r.valuel)
    {
      hide ParseAt, Separators, ReadAt;
      ghost var d, start := Whole(), curr;
      st, key, valueAt, valuel := Okay, COMMENT, 0, 0;
      while st == Okay && key == COMMENT
        invariant Valid() && mode.Reading?
        invariant st == Okay && key == COMMENT ==> curr <= len && ReadAt(d, start) == ReadAt(Whole(), curr)
        invariant !(st == Okay && key == COMMENT) ==>
          var r := ReadAt(d, start);
          && st == r.st && curr == r.next && ButHeader(r)
          && (st == Okay ==> key == r.key && valueAt == r.valueAt && valuel == r.valuel)
        decreases st == Okay && key == COMMENT, Separators(Whole())
      {
        st, key, valueAt, valuel := ReadTurn();
      }
    }

    /** One turn of the loop. */
    method ReadTurn() returns (st: Status, key: Bytes, valueAt: nat, valuel: int)
      requires Valid() && mode.Reading? && curr <= len
      modifies this`curr, data
      ensures Valid()
      ensures var d, at := old(Whole()), old(curr);
        if st == Okay && key == COMMENT then
          && curr <= len && ReadAt(d, at) == ReadAt(Whole(), curr) && Separators(Whole()) < Separators(d)
        else
          var r := ReadAt(d, at);
          && st == r.st && curr == r.next && ButHeader(r)
          && (st == Okay ==> key == r.key && valueAt == r.valueAt && valuel == r.valuel)
    {
      hide ParseAt, Separators, ReadAt;
      ghost var d, at := Whole(), curr;
      OneTurn(d, at);
      var next;
      st, key, valueAt, valuel, next := Parse(curr);
      assert Whole() == ParseAt(d, at).d && data[len] == Whole()[len];
      curr := next;
      if st != Okay { return; }
      if key == COMMENT {
        if next > len { st := Outside; }
      } else {
        AddConst(valueAt);
      }
    }

    /** What a call gives: the status, and for an item its key, and its value in the message with a
        NUL behind it. */
    ghost predicate Gave(p: Parsed, st: Status, key: Bytes, valueAt: nat, valuel: int)
      reads this, data
    {
      match p
      case Failed(s) => st == s
      case Parsed(k, v, _) =>
        && st == Okay && key == k && valueAt + |v| < data.Length && valuel == |v|
        && data[valueAt..valueAt + |v|] == v && data[valueAt + |v|] == 0
    }

    /** rim_read_msg. What is given, where the next call starts and all bytes but the header of the
        value are as ReadAt says, for every message. As long as no length that the call meets is
        negative, bytes in front of the place where it starts are not touched, the pair is the next
        one of the format, and what is left is what was behind the item. */
    method ReadMsg() returns (st: Status, key: Bytes, valueAt: nat, valuel: int)
      requires Valid()
      modifies this`curr, this`mode, data
      ensures Valid() && mode.Reading?
      ensures var start := if old(mode).Reading? then old(curr) else 0;
        if start >= len then st == ErrLength && Whole() == old(Whole())
        else
          var r := ReadAt(old(Whole()), start);
          && st == r.st && curr == r.next && ButHeader(r)
          && (st == Okay ==> key == r.key && valueAt == r.valueAt && valuel == r.valuel)
      ensures var p := ReadNext(old(Left()));
        p != Failed(Negative) ==>
          && Gave(p, st, key, valueAt, valuel)
          && (p.Parsed? ==> Left() == if p.taken > |old(Left())| then [] else old(Left())[p.taken..])
          && forall i :: 0 <= i < (if old(mode).Reading? then Min(old(curr), len) else 0) ==> data[i] == old(data[i])
    {
      hide ReadAt, ReadItem;
      if !mode.Reading? {
        curr := 0;
        mode := Reading;
      }
      st, key, valueAt, valuel := ErrLength, [], 0, 0;
      if curr >= len { return; }
      ghost var d, start := Whole(), curr;
      assert d[start..len] == data[start..len];
      st, key, valueAt, valuel := ReadFrom();
      ghost var p := ReadItem(d[start..len]);
      if p != Failed(Negative) {
        ReadMeets(d, start);
        AsMet(d, start, p, st, key, valueAt, valuel);
      }
    }

    /** What the format says, seen in the bytes the call leaves. */
    lemma AsMet(d: Bytes, start: nat, p: Parsed, st: Status, key: Bytes, valueAt: nat, valuel: int)
      requires len < data.Length && mode.Reading? && |d| == len + 1 && start < len
      requires var r := ReadAt(d, start);
        && Meets(p, d, start, r) && st == r.st && curr == r.next && ButHeader(r)
        && (st == Okay ==> key == r.key && valueAt == r.valueAt && valuel == r.valuel)
      requires p == ReadItem(d[start..len])
      ensures Gave(p, st, key, valueAt, valuel)
      ensures p.Parsed? ==> Left() == if p.taken > len - start then [] else d[start..len][p.taken..]
      ensures forall i :: 0 <= i < start ==> data[i] == d[i]
    {
      hide ReadAt, ReadItem;
      var r := ReadAt(d, start);
      if p.Parsed? {
        assert data[valueAt..valueAt + |p.value|] == r.d[valueAt..valueAt + |p.value|];
        if p.taken <= len - start {
          assert data[r.next..len] == d[r.next..len] == d[start..len][p.taken..];
        }
      }
    }
  }

  /** One turn of reading, in place. */
  lemma OneTurn(d: Bytes, at: nat)
    requires at < |d| && d[|d| - 1] == 0
    ensures var p := ParseAt(d, at);
      && ReadAt(d, at) ==
           (if p.st == Okay && p.key == COMMENT then
              if p.next >= |d| then p.(st := Outside) else ReadAt(p.d, p.next)
            else p)
      && (p.st == Okay ==> Separators(p.d) < Separators(d) && ALIGN < p.valueAt < |d|)
      && p.d[|d| - 1] == 0
  {
    hide ParseAt, Separators;
    ParseKeepsEnd(d, at);
    if ParseAt(d, at).st == Okay {
      ParsedLosesSeparator(d, at);
      var eq, c := TakenItem(d, at);
    }
  }

  lemma {:induction false} TrimLeftIs(t: Bytes, j: nat)
    requires j <= |t| && (forall i :: 0 <= i < j ==> IsSpace(t[i])) && (j < |t| ==> !IsSpace(t[j]))
    ensures TrimLeft(t) == t[j..]
  {
    if j > 0 { TrimLeftIs(t[1..], j - 1); }
  }

  lemma {:induction false} TrimRightIs(t: Bytes, kl: nat)
    requires kl <= |t| && (forall i :: kl <= i < |t| ==> IsSpace(t[i])) && (kl > 0 ==> !IsSpace(t[kl - 1]))
    ensures TrimRight(t) == t[..kl]
    decreases |t|
  {
    if kl < |t| {
      TrimRightIs(t[..|t| - 1], kl);
      assert t[..|t| - 1][..kl] == t[..kl];
    } else {
      assert t[..kl] == t;
    }
  }
}
