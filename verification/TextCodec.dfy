/** utfs.c: text with `\u` and `\U` escapes to UTF-8, in place, and UTF-8 to such text. */
module TextCodec {
  import opened Bytes
  import opened Utf

  /** A byte string closed by a NUL, which is how every string is kept. */
  ghost predicate Closed(s: Bytes) {
    |s| > 0 && s[|s| - 1] == 0
  }

  // ---------- what the parser reads ----------

  /** One turn of the parsing loop: the bytes it puts and how many it takes. */
  datatype Piece = Put(bytes: Bytes, taken: nat) | End | Wrong

  /** The bytes of a code, or an error. */
  function PutCode(u: int, taken: nat): Piece {
    match DecodeUtf(u)
    case Utf8(b) => Put(b, taken)
    case BadCode => Wrong
  }

  predicate IsSurrogate(u: int) {
    0xD800 <= u <= 0xDFFF
  }

  /** After `\U`: eight digits, kept in a 32-bit signed number. -1 reads as an error. */
  function NextEight(s: Bytes): Piece {
    match HexNumber(s, 8, 0)
    case BadHex => Wrong
    case Hex(n) =>
      var u := ToInt32(n % 0x1_0000_0000);
      if u == -1 || IsSurrogate(u) then Wrong else PutCode(u, 10)
  }

  /** After `\u`: four digits, and four more behind a second `\u` when they are in the surrogate
      range. Nothing is asked of the second number. */
  function NextFour(s: Bytes): Piece {
    match HexNumber(s, 4, 0)
    case BadHex => Wrong
    case Hex(n) =>
      if !IsSurrogate(n) then PutCode(n, 6)
      else if |s| < 6 || s[4] != 92 || s[5] != 117 then Wrong
      else
        match HexNumber(s[6..], 4, 0)
        case BadHex => Wrong
        case Hex(l) => PutCode(FromSurrogates(n, l), 12)
  }

  /** What a backslash and one more byte stand for. */
  function Short(c: byte): (r: int)
    ensures r >= 0 ==> 0 < r < 256
  {
    if c == 34 || c == 92 || c == 47 then c
    else if c == 98 then 8
    else if c == 102 then 12
    else if c == 110 then 10
    else if c == 114 then 13
    else if c == 116 then 9
    else -1
  }

  function Next(s: Bytes): (p: Piece)
    requires Closed(s)
    ensures p.Put? ==> 1 <= |p.bytes| <= p.taken < |s|
  {
    if s[0] == 34 || s[0] == 0 then End
    else if s[0] != 92 then Put([s[0]], 1)
    else if s[1] == 85 then
      HexTakes(s, 2, 8); NextEight(s[2..])
    else if s[1] == 117 then
      HexTakes(s, 2, 4); HexTakes(s, 8, 4); NextFour(s[2..])
    else if Short(s[1]) >= 0 then Put([Short(s[1])], 2)
    else Wrong
  }

  /** Digits are never the closing NUL. */
  lemma HexTakes(s: Bytes, at: nat, n: nat)
    requires Closed(s)
    ensures at < |s| && HexNumber(s[at..], n, 0).Hex? ==> at + n < |s|
  {
    if at < |s| && HexNumber(s[at..], n, 0).Hex? {
      HexRuns(s[at..], n, 0);
    }
  }

  lemma {:induction false} HexRuns(s: Bytes, n: nat, acc: nat)
    requires Closed(s) && HexNumber(s, n, acc).Hex?
    ensures n < |s|
  {
    if n > 0 {
      HexRuns(s[1..], n - 1, acc * 16 + HexDigit(s[0]));
    }
  }

  /** What the text reads as, up to the first quote or NUL outside an escape. */
  datatype Parsed = Good(out: Bytes, used: nat) | Bad

  function Before(b: Bytes, taken: nat, p: Parsed): Parsed {
    if p.Bad? then Bad else Good(b + p.out, taken + p.used)
  }

  lemma BeforeNone(p: Parsed)
    ensures Before([], 0, p) == p
  {
    if p.Good? { assert [] + p.out == p.out; }
  }

  lemma BeforeTwice(a: Bytes, m: nat, b: Bytes, n: nat, p: Parsed)
    ensures Before(a, m, Before(b, n, p)) == Before(a + b, m + n, p)
  {
    if p.Good? { assert a + (b + p.out) == (a + b) + p.out; }
  }

  function Parse(s: Bytes): (p: Parsed)
    requires Closed(s)
    ensures p.Good? ==> p.used < |s| && s[p.used] in {0, 34} && |p.out| <= p.used
    decreases |s|
  {
    match Next(s)
    case End => Good([], 0)
    case Wrong => Bad
    case Put(b, n) => Before(b, n, Parse(s[n..]))
  }

  // ---------- the parser, in place ----------

  /** rim_utf_get_code8 with the rim_decode_utf after it; i is at the `U`. */
  method CodeEight(val: array<byte>, i: nat) returns (u: int, ok: bool)
    requires Closed(val[..]) && i + 1 < val.Length
    ensures NextEight(val[i + 1..]) == if ok then PutCode(u, 10) else Wrong
  {
    var h := GetHex(val, i + 1, 8);
    if h.BadHex? { return 0, false; }
    u := ToInt32(h.value % 0x1_0000_0000);
    ok := u != -1 && !IsSurrogate(u);
  }

  /** rim_utf_get_code; i is at the `u`. */
  method CodeFour(val: array<byte>, i: nat) returns (u: int, totjv: nat, ok: bool)
    requires Closed(val[..]) && i + 1 < val.Length
    ensures NextFour(val[i + 1..]) == if ok then PutCode(u, totjv) else Wrong
    ensures totjv == 6 || totjv == 12
  {
    var h := GetHex(val, i + 1, 4);
    totjv := 6;
    if h.BadHex? { return 0, totjv, false; }
    u := h.value;
    if IsSurrogate(u) {
      totjv := 12;
      HexTakes(val[..], i + 1, 4);
      assert val[..][i + 1..] == val[i + 1..];
      if val[i + 5] != 92 || val[i + 6] != 117 { return 0, totjv, false; }
      assert val[i + 1..][6..] == val[i + 7..];
      h := GetHex(val, i + 7, 4);
      if h.BadHex? { return 0, totjv, false; }
      u := FromSurrogates(u, h.value);
    }
    ok := true;
  }

  /** `out` is written from start up to w, and the rest from i on is as it was. */
  ghost predicate Written(was: Bytes, now: Bytes, start: nat, i: nat, w: int, out: Bytes) {
    && |now| == |was| && start <= w <= i < |was|
    && now[start..w] == out
    && forall k :: 0 <= k < |was| && (k < start || i <= k) ==> now[k] == was[k]
  }

  lemma {:induction false} WrittenAdvances(was: Bytes, now: Bytes, start: nat, i: nat, w: int, out: Bytes, next: Bytes, i2: nat, w2: int)
    requires Written(was, now, start, i, w, out)
    requires |next| == |was| && w <= w2 <= i2 < |next| && i <= i2
    requires forall k :: 0 <= k < |was| && !(w <= k < w2) ==> next[k] == now[k]
    ensures Written(was, next, start, i2, w2, out + next[w..w2])
  {
    assert next[start..w] == now[start..w];
    assert next[start..w2] == next[start..w] + next[w..w2];
  }

  /** The loop of rim_text_to_utf, between two turns: i is the reading index, i - pull the
      writing index, and what is still to be read is what was there at the start. */
  ghost predicate Parsing(was: Bytes, now: Bytes, start: nat, i: nat, pull: int, out: Bytes)
  {
    && Written(was, now, start, i, i - pull, out)
    && Reads(was, start, i, out)
  }

  /** The turns from start to i put `out`. */
  ghost predicate Reads(was: Bytes, start: nat, i: nat, out: Bytes)
    decreases i
  {
    && Closed(was) && start <= i < |was|
    && if i == start then out == []
       else exists j: nat, b, prefix ::
         j < i && Reads(was, start, j, prefix) && out == prefix + b && Next(was[j..]) == Put(b, i - j)
  }

  lemma ReadsMore(was: Bytes, start: nat, i: nat, out: Bytes, b: Bytes, n: nat)
    requires Reads(was, start, i, out)
    requires Next(was[i..]) == Put(b, n)
    ensures Reads(was, start, i + n, out + b)
  {
  }

  /** The turns taken are a front of the whole parse. */
  lemma {:induction false} ReadsIsParse(was: Bytes, start: nat, i: nat, out: Bytes)
    requires Reads(was, start, i, out)
    ensures Parse(was[start..]) == Before(out, i - start, Parse(was[i..]))
  {
    hide Next;
    var rest := Parse(was[i..]);
    if i == start {
      BeforeNone(rest);
    } else {
      var j: nat, b, prefix :|
        j < i && Reads(was, start, j, prefix) && out == prefix + b && Next(was[j..]) == Put(b, i - j);
      ReadsIsParse(was, start, j, prefix);
      assert was[j..][i - j..] == was[i..];
      BeforeTwice(prefix, j - start, b, i - j, rest);
    }
  }

  lemma WrittenRest(was: Bytes, now: Bytes, start: nat, i: nat, w: int, out: Bytes)
    requires Written(was, now, start, i, w, out) && Closed(was)
    ensures was[i..] == now[i..] && Closed(now) && was[i] == now[i]
  {
  }

  /** One turn: what is at i0 is read up to i, and what it stands for is written from w0 to w. */
  ghost predicate Took(before: Bytes, after: Bytes, i0: nat, w0: int, i: nat, w: int) {
    && |after| == |before| && Closed(before) && 0 <= w0 <= w <= i < |before| && i0 < i
    && Next(before[i0..]) == Put(after[w0..w], i - i0)
    && forall k :: 0 <= k < |before| && !(w0 <= k < w) ==> after[k] == before[k]
  }

  lemma TookKeeps(was: Bytes, before: Bytes, start: nat, i0: nat, w0: int, out: Bytes, after: Bytes, i: nat, w: int)
    requires Written(was, before, start, i0, w0, out) && Reads(was, start, i0, out)
    requires Took(before, after, i0, w0, i, w)
    ensures Written(was, after, start, i, w, out + after[w0..w]) && Reads(was, start, i, out + after[w0..w])
  {
    WrittenRest(was, before, start, i0, w0, out);
    ReadsMore(was, start, i0, out, after[w0..w], i - i0);
    WrittenAdvances(was, before, start, i0, w0, out, after, i, w);
  }

  /** rim_decode_utf into the buffer. */
  method WriteCode(val: array<byte>, at: nat, u: int) returns (n: int)
    requires at + 4 <= val.Length || (DecodeUtf(u).Utf8? ==> at + |DecodeUtf(u).bytes| <= val.Length)
    modifies val
    ensures n == match DecodeUtf(u) case BadCode => -1 case Utf8(b) => |b|
    ensures n < 0 ==> val[..] == old(val[..])
    ensures n > 0 ==> forall k :: 0 <= k < n ==> val[at + k] == DecodeUtf(u).bytes[k]
    ensures forall k :: 0 <= k < val.Length && !(at <= k < at + n) ==> val[k] == old(val[k])
  {
    if u <= 0x7F {
      val[at] := u % 256;
      return 1;
    } else if u <= 0x7FF {
      val[at], val[at + 1] := 192 + u / 64, 128 + u % 64;
      return 2;
    } else if u <= 0xFFFF {
      if u == 0xFEFF { return -1; }
      val[at], val[at + 1], val[at + 2] := 224 + u / 0x1000, 128 + u / 64 % 64, 128 + u % 64;
      return 3;
    } else if u <= 0x10FFFF {
      val[at], val[at + 1] := 240 + u / 0x4_0000, 128 + u / 0x1000 % 64;
      val[at + 2], val[at + 3] := 128 + u / 64 % 64, 128 + u % 64;
      return 4;
    } else {
      return -1;
    }
  }

  /** One turn of the loop at a backslash: the new i and pull, or a failure. */
  method TakeEscape(val: array<byte>, i0: nat, pull0: int) returns (i: nat, pull: int, ok: bool)
    requires Closed(val[..]) && i0 < val.Length && val[i0] == 92 && 0 <= pull0 <= i0
    modifies val
    ensures ok <==> !Next(old(val[i0..])).Wrong?
    ensures ok ==> i0 - pull0 <= i - pull <= i < val.Length && i0 <= i
    ensures ok ==> Next(old(val[i0..])) == Put(val[..][i0 - pull0..i - pull], i - i0)
    ensures ok ==> forall k :: 0 <= k < val.Length && !(i0 - pull0 <= k < i - pull) ==> val[k] == old(val[k])
  {
    hide NextEight, NextFour;
    ghost var s := val[..][i0..];
    assert Closed(s) && s == val[i0..];
    i, pull := i0 + 1, pull0;
    var c := val[i];
    assert s[1] == c;
    if c == 85 || c == 117 {
      var u: int, totjv: nat;
      assert s[2..] == val[i0 + 2..];
      if c == 85 {
        totjv := 10;
        u, ok := CodeEight(val, i);
      } else {
        u, totjv, ok := CodeFour(val, i);
      }
      if !ok { return i, pull, false; }
      assert Next(s) == PutCode(u, totjv);
      var bytes := WriteCode(val, i - 1 - pull, u);
      if bytes < 0 { return i, pull, false; }
      assert val[..][i0 - pull0..i0 - pull0 + bytes] == DecodeUtf(u).bytes;
      pull := pull + totjv - bytes;
      i := i + totjv - 1 - 1;
    } else if Short(c) >= 0 {
      val[i - 1 - pull] := Short(c);
      pull := pull + 1;
    } else {
      return i, pull, false;
    }
    i := i + 1;
    ok := true;
  }

  /** One turn of the loop at any byte before the end. */
  method Take(val: array<byte>, i0: nat, pull0: int) returns (i: nat, pull: int, ok: bool)
    requires Closed(val[..]) && i0 < val.Length && val[i0] != 34 && val[i0] != 0 && 0 <= pull0 <= i0
    modifies val
    ensures ok <==> !Next(old(val[..])[i0..]).Wrong?
    ensures ok ==> Took(old(val[..]), val[..], i0, i0 - pull0, i, i - pull)
  {
    if val[i0] == 92 {
      i, pull, ok := TakeEscape(val, i0, pull0);
    } else {
      ghost var s := val[..][i0..];
      assert s[0] == val[i0];
      if pull0 != 0 { val[i0 - pull0] := val[i0]; }
      i, pull, ok := i0 + 1, pull0, true;
      assert val[..][i0 - pull0..i - pull] == [s[0]];
    }
  }

  /** One turn of the loop, and what it keeps. */
  method Turn(val: array<byte>, i0: nat, pull0: int, ghost was: Bytes, ghost start: nat, ghost out0: Bytes)
    returns (i: nat, pull: int, ok: bool, ghost out: Bytes)
    requires Parsing(was, val[..], start, i0, pull0, out0) && val[i0] != 34 && val[i0] != 0
    modifies val
    ensures ok ==> Parsing(was, val[..], start, i, pull, out) && i > i0
    ensures !ok ==> Next(was[i0..]).Wrong?
  {
    ghost var now := val[..];
    WrittenRest(was, now, start, i0, i0 - pull0, out0);
    i, pull, ok := Take(val, i0, pull0);
    out := out0;
    if ok {
      TookKeeps(was, now, start, i0, i0 - pull0, out0, val[..], i, i - pull);
      out := out0 + val[..][i0 - pull0..i - pull];
    }
  }

  /** rim_text_to_utf with encoding on. A negative end is the error return. */
  method TextToUtf(val: array<byte>, quoted: bool) returns (end: int)
    requires Closed(val[..]) && (quoted ==> val.Length > 1)
    modifies val
    ensures Converted(old(val[..]), val[..], if quoted then 1 else 0, quoted, end)
  {
    hide Next, Parse;
    var start := if quoted then 1 else 0;
    var i, pull := start, 0;
    ghost var was := val[..];
    ghost var out: Bytes := [];
    while val[i] != 34 && val[i] != 0
      invariant Parsing(was, val[..], start, i, pull, out)
      decreases val.Length - i
    {
      var i2, pull2, ok, out2 := Turn(val, i, pull, was, start, out);
      if !ok {
        ReadsIsParse(was, start, i, out);
        WrongIsBad(was[i..]);
        return -1;
      }
      i, pull, out := i2, pull2, out2;
    }
    ghost var now := val[..];
    if pull != 0 { val[i - pull] := 0; }
    WrittenEnds(was, now, start, i, i - pull, out, val[..]);
    ParseEnds(was, start, i, out);
    if val[i] == 0 && quoted { return -1; }
    end := i;
  }

  lemma WrongIsBad(s: Bytes)
    requires Closed(s) && Next(s).Wrong?
    ensures Parse(s) == Bad
  {
    hide Next;
  }

  /** What a call leaves: the value of the text behind `start`, closed by a NUL when it is shorter
      than the text, and nothing else. */
  ghost predicate Converted(was: Bytes, now: Bytes, start: nat, quoted: bool, end: int)
    requires Closed(was) && start < |was|
  {
    var p := Parse(was[start..]);
    && |now| == |was|
    && (end < 0 <==> p.Bad? || (quoted && was[start + p.used] == 0))
    && (end >= 0 ==>
      && end == start + p.used
      && now[start..start + |p.out|] == p.out
      && (|p.out| < p.used ==> now[start + |p.out|] == 0)
      && now[end..] == was[end..] && now[..start] == was[..start])
  }

  lemma {:induction false} WrittenEnds(was: Bytes, now: Bytes, start: nat, i: nat, w: int, out: Bytes, next: Bytes)
    requires Written(was, now, start, i, w, out)
    requires next == if w == i then now else now[w := 0]
    ensures next[start..start + |out|] == out && (w != i ==> next[start + |out|] == 0)
    ensures next[i..] == was[i..] && next[..start] == was[..start] && next[i] == was[i]
  {
    assert next[start..w] == now[start..w];
  }

  lemma {:induction false} ParseEnds(was: Bytes, start: nat, i: nat, out: Bytes)
    requires Reads(was, start, i, out) && (was[i] == 34 || was[i] == 0)
    ensures Parse(was[start..]) == Good(out, i - start)
  {
    ReadsIsParse(was, start, i, out);
    assert was[i..][0] == was[i];
    assert out + [] == out;
  }

  // ---------- what the printer writes ----------

  function Escaped(c: byte): (t: Bytes)
    ensures 1 <= |t| <= 2
  {
    if c == 34 || c == 92 then [92, c]
    else if c == 8 then [92, 98]
    else if c == 12 then [92, 102]
    else if c == 10 then [92, 110]
    else if c == 13 then [92, 114]
    else if c == 9 then [92, 116]
    else [c]
  }

  /** `\u` or `\U` notation; json only decides how a number above 0xFFFF is written. */
  function Notation(u: nat, json: bool): (t: Bytes)
    ensures |t| == if u < 0x1_0000 then 6 else if json then 12 else 10
  {
    if u < 0x1_0000 then [92, 117] + Hex16(u)
    else if json then [92, 117] + Hex16(HighSurrogate(u)) + [92, 117] + Hex16(LowSurrogate(u))
    else [92, 85] + Hex32(u)
  }

  datatype Printed = Text(text: Bytes) | BadText

  function After(t: Bytes, p: Printed): Printed {
    if p.BadText? then BadText else Text(t + p.text)
  }

  /** One turn of the printing loop: the text it adds and how many bytes it takes. */
  datatype Stroke = Write(text: Bytes, taken: nat) | Fail

  function PrintNext(s: Bytes, json: bool): (w: Stroke)
    requires Closed(s) && |s| > 1
    ensures w.Write? ==> 1 <= w.taken < |s| && 1 <= |w.text| <= 3 * w.taken
    ensures w.Write? ==> forall k :: 0 < k < w.taken ==> s[k] >= 128
  {
    if s[0] >= 192 then
      match EncodeUtf(s)
      case BadUtf => Fail
      case Code(u, bytes) => Write(Notation(u, json), bytes)
    else Write(Escaped(s[0]), 1)
  }

  /** The text of the bytes of s whose index is below n. A sequence that starts below n is taken
      whole. */
  function Print(s: Bytes, n: nat, json: bool): Printed
    requires Closed(s) && n < |s|
    decreases n
  {
    if n == 0 then Text([])
    else
      match PrintNext(s, json)
      case Fail => BadText
      case Write(t, k) => After(t, Print(s[k..], if n > k then n - k else 0, json))
  }

  // ---------- where the printer stops ----------

  /** Where the turns of the loop stop: at n, or behind it when the last turn cuts a sequence. */
  function Stop(s: Bytes, n: nat, json: bool): nat
    requires Closed(s) && n < |s|
    decreases n
  {
    if n == 0 then 0
    else
      match PrintNext(s, json)
      case Fail => 0
      case Write(_, k) => k + Stop(s[k..], if n > k then n - k else 0, json)
  }

  /** Where the last turn starts, or the one that fails. */
  function LastTurn(s: Bytes, n: nat, json: bool): (i: nat)
    requires Closed(s) && 0 < n < |s|
    ensures i < n
    decreases n
  {
    match PrintNext(s, json)
    case Fail => 0
    case Write(_, k) => if n > k then k + LastTurn(s[k..], n - k, json) else 0
  }

  /** How many characters the turns below n write. */
  function Width(s: Bytes, n: nat, json: bool): nat
    requires Closed(s) && n < |s|
    decreases n
  {
    if n == 0 then 0
    else
      match PrintNext(s, json)
      case Fail => 0
      case Write(t, k) => |t| + Width(s[k..], if n > k then n - k else 0, json)
  }

  /** The last turn cuts a sequence, and its notation is wider than three characters for each byte that
      is left of the length and what earlier turns left unused. A scan of the string tells. */
  predicate Overruns(s: Bytes, n: nat, json: bool)
    requires Closed(s) && n < |s|
  {
    n > 0 &&
    var i := LastTurn(s, n, json);
    var w := PrintNext(s[i..], json);
    w.Write? && i + w.taken > n && |w.text| > 3 * (n - i) + (3 * i - Width(s, i, json))
  }

  /** Three characters for each byte up to where the turns stop are always enough. */
  lemma {:induction false} TextFitsStop(s: Bytes, n: nat, json: bool)
    requires Closed(s) && n < |s| && Print(s, n, json).Text?
    ensures |Print(s, n, json).text| == Width(s, n, json) <= 3 * Stop(s, n, json)
    ensures n <= Stop(s, n, json)
    decreases n
  {
    hide PrintNext;
    if n > 0 {
      var k := PrintNext(s, json).taken;
      TextFitsStop(s[k..], if n > k then n - k else 0, json);
    }
  }

  /** One turn of each scan. */
  lemma ScanTurn(s: Bytes, n: nat, json: bool)
    requires Closed(s) && 0 < n < |s| && PrintNext(s, json).Write?
    ensures var w := PrintNext(s, json);
      var m := if n > w.taken then n - w.taken else 0;
      && Print(s, n, json) == After(w.text, Print(s[w.taken..], m, json))
      && Stop(s, n, json) == w.taken + Stop(s[w.taken..], m, json)
      && Width(s, n, json) == |w.text| + Width(s[w.taken..], m, json)
      && LastTurn(s, n, json) == if m > 0 then w.taken + LastTurn(s[w.taken..], m, json) else 0
  {
    hide PrintNext;
  }

  /** The text is that of the turns before the last one and what that one adds. */
  ghost predicate LastAdds(s: Bytes, n: nat, json: bool)
    requires Closed(s) && 0 < n < |s|
  {
    var i := LastTurn(s, n, json);
    var w := PrintNext(s[i..], json);
    && w.Write? && Stop(s, n, json) == i + w.taken && Stop(s, i, json) == i
    && Print(s, i, json).Text? && Width(s, n, json) == Width(s, i, json) + |w.text|
  }

  lemma {:induction false} LastTurnAdds(s: Bytes, n: nat, json: bool)
    requires Closed(s) && 0 < n < |s| && Print(s, n, json).Text?
    ensures LastAdds(s, n, json)
    decreases n
  {
    hide PrintNext, LastAdds;
    assert PrintNext(s, json).Write?;
    var k := PrintNext(s, json).taken;
    if n > k {
      LastTurnAdds(s[k..], n - k, json);
      LastAddsFurther(s, n, json);
    } else {
      OnlyTurnAdds(s, n, json);
    }
  }

  lemma OnlyTurnAdds(s: Bytes, n: nat, json: bool)
    requires Closed(s) && 0 < n < |s| && PrintNext(s, json).Write? && n <= PrintNext(s, json).taken
    ensures LastAdds(s, n, json)
  {
    hide PrintNext, Print, Stop, Width, LastTurn;
    ScanTurn(s, n, json);
    NoTurns(s[PrintNext(s, json).taken..], json);
    NoTurns(s, json);
    assert s[0..] == s;
  }

  lemma LastAddsFurther(s: Bytes, n: nat, json: bool)
    requires Closed(s) && 0 < n < |s| && PrintNext(s, json).Write? && PrintNext(s, json).taken < n
    requires var k := PrintNext(s, json).taken; LastAdds(s[k..], n - k, json)
    ensures LastAdds(s, n, json)
  {
    hide PrintNext, Print, Stop, Width, LastTurn;
    var k := PrintNext(s, json).taken;
    var i := LastTurn(s[k..], n - k, json);
    ScanTurn(s, n, json);
    ScanTurn(s, k + i, json);
    NoTurns(s[k..], json);
    assert s[k..][i..] == s[k + i..];
  }

  lemma NoTurns(s: Bytes, json: bool)
    requires Closed(s)
    ensures Print(s, 0, json) == Text([]) && Stop(s, 0, json) == 0 && Width(s, 0, json) == 0
  {
  }

  /** The text is longer than three characters for each byte of the length if and only if the last turn
      overruns; it never is when the turns stop at the length. */
  lemma {:induction false} TooLongIffOverruns(s: Bytes, n: nat, json: bool)
    requires Closed(s) && n < |s| && Print(s, n, json).Text?
    ensures |Print(s, n, json).text| > 3 * n <==> Overruns(s, n, json)
    ensures Stop(s, n, json) == n ==> !Overruns(s, n, json)
  {
    hide PrintNext;
    TextFitsStop(s, n, json);
    if n > 0 {
      LastTurnAdds(s, n, json);
      TextFitsStop(s, LastTurn(s, n, json), json);
    }
  }

  // ---------- the printer ----------

  method HexFromInt16(res: array<byte>, at: nat, x: nat)
    requires at + 4 <= res.Length
    modifies res
    ensures res[at..at + 4] == Hex16(x)
    ensures forall k :: 0 <= k < res.Length && !(at <= k < at + 4) ==> res[k] == old(res[k])
  {
    res[at], res[at + 1] := ToHex(x / 0x100 % 256 / 16), ToHex(x / 0x100 % 256 % 16);
    res[at + 2], res[at + 3] := ToHex(x % 256 / 16), ToHex(x % 256 % 16);
  }

  method HexFromInt32(res: array<byte>, at: nat, x: nat)
    requires at + 8 <= res.Length
    modifies res
    ensures res[at..at + 8] == Hex32(x)
    ensures forall k :: 0 <= k < res.Length && !(at <= k < at + 8) ==> res[k] == old(res[k])
  {
    res[at], res[at + 1] := ToHex(x / 0x100_0000 % 256 / 16), ToHex(x / 0x100_0000 % 256 % 16);
    res[at + 2], res[at + 3] := ToHex(x / 0x1_0000 % 256 / 16), ToHex(x / 0x1_0000 % 256 % 16);
    HexFromInt16(res, at + 4, x);
    assert res[at..at + 8] == res[at..at + 4] + res[at + 4..at + 8];
  }

  /** Writes `\u` and four digits at r. */
  method WriteFour(res: array<byte>, r: nat, u: nat)
    requires r + 6 < res.Length
    modifies res
    ensures res[..r + 6] == old(res[..r]) + [92, 117] + Hex16(u)
  {
    res[r], res[r + 1] := 92, 117;
    HexFromInt16(res, r + 2, u);
    res[r + 6] := 0;
    assert res[r + 2..r + 6] == Hex16(u);
    assert res[..r + 6] == res[..r] + res[r..r + 2] + res[r + 2..r + 6];
  }

  /** Writes `\\U` and eight digits at r. */
  method WriteEight(res: array<byte>, r: nat, u: nat)
    requires r + 10 < res.Length
    modifies res
    ensures res[..r + 10] == old(res[..r]) + [92, 85] + Hex32(u)
  {
    res[r], res[r + 1] := 92, 85;
    HexFromInt32(res, r + 2, u);
    assert res[r + 2..r + 10] == Hex32(u);
    assert res[..r + 10] == res[..r] + res[r..r + 2] + res[r + 2..r + 10];
  }

  method WritePair(res: array<byte>, r: nat, u: nat)
    requires r + 12 < res.Length && u >= 0x1_0000
    modifies res
    ensures res[..r + 12] == old(res[..r]) + ([92, 117] + Hex16(HighSurrogate(u)) + [92, 117] + Hex16(LowSurrogate(u)))
  {
    ghost var was := res[..r];
    var u0, u1 := HighSurrogate(u), LowSurrogate(u);
    ghost var a, b := [92, 117] + Hex16(u0), Hex16(u1);
    WriteFour(res, r, u0);
    ghost var mid := res[..r + 6];
    WriteFour(res, r + 6, u1);
    assert mid == was + a;
    assert res[..r + 12] == mid + [92, 117] + b;
    assert was + a + [92, 117] + b == was + (a + [92, 117] + b);
  }

  /** The branch for a whole sequence. */
  method WriteNotation(res: array<byte>, r0: nat, u: nat, json: bool) returns (r: nat)
    requires r0 + |Notation(u, json)| < res.Length
    modifies res
    ensures r == r0 + |Notation(u, json)| && res[..r] == old(res[..r0]) + Notation(u, json)
  {
    ghost var was := res[..r0];
    if u >= 0x1_0000 {
      if !json {
        WriteEight(res, r0, u);
        r := r0 + 10;
        assert was + [92, 85] + Hex32(u) == was + ([92, 85] + Hex32(u));
      } else {
        WritePair(res, r0, u);
        r := r0 + 12;
      }
    } else {
      WriteFour(res, r0, u);
      r := r0 + 6;
      assert was + [92, 117] + Hex16(u) == was + ([92, 117] + Hex16(u));
    }
  }

  /** The branch for any other byte. */
  method WriteEscaped(res: array<byte>, r0: nat, c: byte) returns (r: nat)
    requires r0 + |Escaped(c)| < res.Length
    modifies res
    ensures r == r0 + |Escaped(c)| && res[..r] == old(res[..r0]) + Escaped(c)
  {
    var e := Escaped(c);
    if |e| == 2 {
      res[r0], res[r0 + 1] := e[0], e[1];
      r := r0 + 2;
    } else {
      res[r0] := c;
      r := r0 + 1;
    }
  }

  /** One turn of the loop; a negative r is the error return. */
  method PrintStroke(val: array<byte>, i0: nat, json: bool, res: array<byte>, r0: nat) returns (i: nat, r: int)
    requires Closed(val[..]) && i0 + 1 < val.Length && res != val
    requires var w := PrintNext(val[i0..], json); w.Write? ==> r0 + |w.text| < res.Length
    requires r0 < res.Length
    modifies res
    ensures r < 0 ==> PrintNext(val[i0..], json) == Fail
    ensures r >= 0 ==> r0 < r < res.Length && i > i0
    ensures r >= 0 ==> exists t :: PrintNext(val[i0..], json) == Write(t, i - i0) && res[..r] == old(res[..r0]) + t
  {
    ghost var rest := val[i0..];
    assert Closed(rest);
    i := i0;
    if val[i0] >= 192 {
      var e := EncodeUtf(val[i0..]);
      if e.BadUtf? { return i, -1; }
      i := i0 + (e.bytes - 1);
      r := WriteNotation(res, r0, e.u, json);
    } else {
      r := WriteEscaped(res, r0, val[i0]);
    }
    i := i + 1;
  }

  /** The loop of rim_utf_to_text, between two turns. */
  ghost predicate Printing(s: Bytes, len: nat, json: bool, i: nat, text: Bytes) {
    && Closed(s) && i < |s| && len < |s| && !Overruns(s, len, json)
    && |text| <= 3 * i && |text| <= 3 * len
    && Print(s, len, json) == After(text, Print(s[i..], if len > i then len - i else 0, json))
  }

  lemma {:induction false} PrintingAdvances(s: Bytes, len: nat, json: bool, i: nat, text: Bytes, t: Bytes, k: nat)
    requires Printing(s, len, json, i, text) && i < len
    requires PrintNext(s[i..], json) == Write(t, k)
    ensures Printing(s, len, json, i + k, text + t)
  {
    hide PrintNext, Overruns;
    var rest := s[i..];
    assert rest[k..] == s[i + k..];
    var tail := Print(s[i + k..], if len > i + k then len - i - k else 0, json);
    assert Print(rest, len - i, json) == After(t, tail);
    if tail.Text? { assert text + (t + tail.text) == (text + t) + tail.text; }
    if i + k > len {
      assert tail == Text([]) && (text + t) + [] == text + t;
      TooLongIffOverruns(s, len, json);
    }
  }

  /** One turn, and what it keeps. */
  method PrintTurn(val: array<byte>, len: nat, json: bool, i0: nat, res: array<byte>, r0: nat) returns (i: nat, r: int)
    requires i0 < len && res.Length == 3 * len + 1 && r0 < res.Length && res != val
    requires Printing(val[..], len, json, i0, res[..r0])
    modifies res
    ensures r < 0 ==> Print(val[..], len, json) == BadText
    ensures r >= 0 ==> i > i0 && r < res.Length && Printing(val[..], len, json, i, res[..r])
  {
    hide PrintNext, Overruns;
    ghost var s, text := val[..], res[..r0];
    assert s[i0..] == val[i0..];
    ghost var w := PrintNext(s[i0..], json);
    if w.Write? {
      PrintingAdvances(s, len, json, i0, text, w.text, w.taken);
    }
    i, r := PrintStroke(val, i0, json, res, r0);
  }

  /** rim_utf_to_text. The buffer has three characters for each byte and one for the end, which is
      enough exactly when the length does not overrun. */
  method UtfToText(val: array<byte>, len: nat, json: bool) returns (res: array<byte>, r: int)
    requires Closed(val[..]) && len < val.Length && !Overruns(val[..], len, json)
    ensures fresh(res) && res.Length == 3 * len + 1
    ensures match Print(val[..], len, json)
      case BadText => r == -1
      case Text(t) => r == |t| <= 3 * len && res[..r] == t && res[r] == 0
  {
    hide PrintNext, Overruns;
    res := new byte[3 * len + 1];
    res[0] := 0;
    var i := 0;
    r := 0;
    assert val[..][0..] == val[..] && res[..0] == [];
    PrintStarts(val[..], len, json);
    while i < len
      invariant 0 <= r < res.Length && fresh(res) && res.Length == 3 * len + 1
      invariant Printing(val[..], len, json, i, res[..r])
      decreases len - i
    {
      i, r := PrintTurn(val, len, json, i, res, r);
      if r < 0 { return res, -1; }
    }
    assert res[..r] + [] == res[..r];
    res[r] := 0;
  }

  lemma PrintStarts(s: Bytes, n: nat, json: bool)
    requires Closed(s) && n < |s|
    ensures Print(s, n, json) == After([], Print(s, n, json))
  {
    var p := Print(s, n, json);
    if p.Text? { assert [] + p.text == p.text; }
  }

  /** A length that ends inside a sequence breaks the bound: one byte of U+00E9 prints six
      characters into a buffer of four. */
  lemma CutSequenceOverruns(json: bool)
    ensures Print([0xC3, 0xA9, 0], 1, json) == Text([92, 117, 48, 48, 101, 57])
    ensures Overruns([0xC3, 0xA9, 0], 1, json)
  {
    var s: Bytes := [0xC3, 0xA9, 0];
    assert EncodeUtf(s) == Code(0xE9, 2);
    assert Print(s[2..], 0, json) == Text([]);
    assert Notation(0xE9, json) == [92, 117, 48, 48, 101, 57];
    assert Notation(0xE9, json) + [] == Notation(0xE9, json);
    TooLongIffOverruns(s, 1, json);
  }

  /** A length that ends inside a sequence is harmless when enough is left of earlier bytes. */
  lemma CutSequenceMayFit(json: bool)
    ensures Stop([97, 97, 0xC3, 0xA9, 0], 3, json) == 4 && !Overruns([97, 97, 0xC3, 0xA9, 0], 3, json)
  {
    var s: Bytes := [97, 97, 0xC3, 0xA9, 0];
    assert PrintNext(s, json) == Write([97], 1) && s[1..] == [97, 0xC3, 0xA9, 0];
    assert PrintNext(s[1..], json) == Write([97], 1) && s[1..][1..] == s[2..] == [0xC3, 0xA9, 0];
    assert EncodeUtf(s[2..]) == Code(0xE9, 2);
    assert PrintNext(s[2..], json) == Write(Notation(0xE9, json), 2);
    assert Stop(s[2..], 1, json) == 2 && LastTurn(s[2..], 1, json) == 0;
    assert Stop(s[1..], 2, json) == 3 && LastTurn(s[1..], 2, json) == 1;
    assert LastTurn(s, 3, json) == 2;
    assert Width(s[2..], 0, json) == 0 && Width(s[1..], 1, json) == 1;
  }
}
