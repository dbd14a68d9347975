/** Text and UTF-8 agree: what the parser makes of every spelling of a character, what the printer
    spells, and the round trip. Section 3 of RFC 3629 and section 7 of RFC 7159. */
module TextRoundTrip {
  import opened Bytes
  import opened Utf
  import opened TextCodec

  /** The UTF-8 bytes of a string of characters. */
  function Utf8Of(cps: seq<Scalar>): Bytes {
    if cps == [] then [] else ScalarBytes(cps[0]) + Utf8Of(cps[1..])
  }

  function ScalarBytes(u: Scalar): (b: Bytes)
    ensures 1 <= |b| <= 4 && NulFree(b)
    ensures u >= 0x80 ==> b[0] >= 192 && forall k :: 0 <= k < |b| ==> b[k] >= 128
  {
    DecodeUtf(u).bytes
  }

  lemma ScalarDecodes(u: Scalar)
    ensures DecodeUtf(u) == Utf8(ScalarBytes(u))
  {
  }

  predicate EscapeOf(c: byte, u: int) {
    (c == 34 && u == 34) || (c == 92 && u == 92) || (c == 47 && u == 47) || (c == 98 && u == 8)
    || (c == 102 && u == 12) || (c == 110 && u == 10) || (c == 114 && u == 13) || (c == 116 && u == 9)
  }

  predicate FourDigits(t: Bytes, u: int) {
    |t| == 6 && t[..2] == [92, 117] && HexNumber(t[2..], 4, 0) == Hex2(u)
  }

  function Hex2(u: int): HexResult {
    if u >= 0 then Hex(u) else BadHex
  }

  predicate EightDigits(t: Bytes, u: int) {
    |t| == 10 && t[..2] == [92, 85] && HexNumber(t[2..], 8, 0) == Hex2(u)
  }

  /** A high and a low surrogate, section 7 of RFC 7159. */
  ghost predicate PairDigits(t: Bytes, u: int) {
    && |t| == 12
    && exists high, low ::
      FourDigits(t[..6], high) && FourDigits(t[6..], low)
      && 0xD800 <= high <= 0xDBFF && 0xDC00 <= low <= 0xDFFF
      && u == 0x1_0000 + (high - 0xD800) * 0x400 + (low - 0xDC00)
  }

  /** Every way to spell one character: its own bytes unless it is a quote or a backslash, a short
      escape, four digits of either case below 0x10000, a surrogate pair above, or eight digits. */
  ghost predicate Spells(t: Bytes, u: Scalar) {
    || (t == ScalarBytes(u) && u != 34 && u != 92)
    || (|t| == 2 && t[0] == 92 && EscapeOf(t[1], u))
    || FourDigits(t, u)
    || PairDigits(t, u)
    || EightDigits(t, u)
  }

  /** A text that spells a string, piece by piece. */
  ghost predicate SpellsAll(t: Bytes, cps: seq<Scalar>)
    decreases |cps|
  {
    if cps == [] then t == []
    else exists k :: 0 < k <= |t| && Spells(t[..k], cps[0]) && SpellsAll(t[k..], cps[1..])
  }

  lemma {:induction false} HexNumberFront(t: Bytes, rest: Bytes, n: nat, acc: nat)
    requires HexNumber(t, n, acc).Hex?
    ensures HexNumber(t + rest, n, acc) == HexNumber(t, n, acc)
  {
    if n > 0 {
      assert (t + rest)[1..] == t[1..] + rest;
      HexNumberFront(t[1..], rest, n - 1, acc * 16 + HexDigit(t[0]));
    }
  }

  lemma {:induction false} HexNumberBound(t: Bytes, n: nat, acc: nat)
    requires HexNumber(t, n, acc).Hex?
    ensures HexNumber(t, n, acc).value < (acc + 1) * Power16(n)
  {
    if n > 0 {
      var d := HexDigit(t[0]);
      HexNumberBound(t[1..], n - 1, acc * 16 + d);
      BoundShift(acc, d, Power16(n - 1));
    }
  }

  lemma BoundShift(acc: nat, d: nat, p: nat)
    requires d < 16
    ensures (acc * 16 + d + 1) * p <= (acc + 1) * (16 * p)
  {
    assert (acc + 1) * (16 * p) == (acc * 16 + d + 1) * p + (15 - d) * p;
  }

  // ---------- every spelling parses to the character ----------

  /** Raw bytes are put one by one. */
  lemma {:induction false} RawParses(b: Bytes, rest: Bytes)
    requires Closed(rest)
    requires forall k :: 0 <= k < |b| ==> b[k] != 0 && b[k] != 34 && b[k] != 92
    ensures Closed(b + rest) && Parse(b + rest) == Before(b, |b|, Parse(rest))
  {
    if b == [] {
      assert b + rest == rest;
      BeforeNone(Parse(rest));
    } else {
      RawParses(b[1..], rest);
      var s := b + rest;
      assert s[1..] == b[1..] + rest;
      assert Next(s) == Put([b[0]], 1);
      BeforeTwice([b[0]], 1, b[1..], |b| - 1, Parse(rest));
      assert [b[0]] + b[1..] == b;
    }
  }

  lemma {:induction false} PieceParses(t: Bytes, rest: Bytes, b: Bytes)
    requires Closed(rest) && Next(t + rest) == Put(b, |t|)
    ensures Parse(t + rest) == Before(b, |t|, Parse(rest))
  {
    assert (t + rest)[|t|..] == rest;
  }

  lemma {:induction false} FourParses(t: Bytes, rest: Bytes, u: Scalar)
    requires Closed(rest) && FourDigits(t, u)
    ensures Next(t + rest) == Put(ScalarBytes(u), 6)
  {
    var s := t + rest;
    assert s[0] == t[0] == t[..2][0] && s[1] == t[1] == t[..2][1];
    assert s[2..] == t[2..] + rest;
    HexNumberFront(t[2..], rest, 4, 0);
    ScalarDecodes(u);
  }

  lemma {:induction false} EightParses(t: Bytes, rest: Bytes, u: Scalar)
    requires Closed(rest) && EightDigits(t, u)
    ensures Next(t + rest) == Put(ScalarBytes(u), 10)
  {
    var s := t + rest;
    assert s[0] == t[0] == t[..2][0] && s[1] == t[1] == t[..2][1];
    assert s[2..] == t[2..] + rest;
    HexNumberFront(t[2..], rest, 8, 0);
    EightCode(s[2..], u);
  }

  lemma EightCode(v: Bytes, u: Scalar)
    requires HexNumber(v, 8, 0) == Hex(u)
    ensures NextEight(v) == Put(ScalarBytes(u), 10)
  {
    assert ToInt32(u % 0x1_0000_0000) == u;
    ScalarDecodes(u);
  }

  lemma {:induction false} PairParses(t: Bytes, rest: Bytes, u: Scalar)
    requires Closed(rest) && PairDigits(t, u)
    ensures Next(t + rest) == Put(ScalarBytes(u), 12)
  {
    var s := t + rest;
    var a, b := t[..6], t[6..];
    var high, low :|
      FourDigits(a, high) && FourDigits(b, low)
      && 0xD800 <= high <= 0xDBFF && 0xDC00 <= low <= 0xDFFF
      && u == 0x1_0000 + (high - 0xD800) * 0x400 + (low - 0xDC00);
    assert s[0] == a[..2][0] && s[1] == a[..2][1];
    var v := s[2..];
    assert v == a[2..] + (b + rest);
    HexNumberFront(a[2..], b + rest, 4, 0);
    assert v[4] == b[..2][0] && v[5] == b[..2][1];
    assert (b + rest)[2..] == b[2..] + rest;
    assert v[6..] == (b + rest)[2..];
    HexNumberFront(b[2..], rest, 4, 0);
    assert FromSurrogates(high, low) == u;
    ScalarDecodes(u);
  }

  lemma {:induction false} SpellingParses(t: Bytes, rest: Bytes, u: Scalar)
    requires Closed(rest) && Spells(t, u)
    ensures Closed(t + rest) && Parse(t + rest) == Before(ScalarBytes(u), |t|, Parse(rest))
  {
    if t == ScalarBytes(u) && u != 34 && u != 92 {
      RawParses(t, rest);
    } else if |t| == 2 && t[0] == 92 && EscapeOf(t[1], u) {
      var s := t + rest;
      assert s[0] == 92 && s[1] == t[1];
      assert Next(s) == Put([u], 2);
      assert ScalarBytes(u) == [u];
      PieceParses(t, rest, [u]);
    } else {
      if FourDigits(t, u) { FourParses(t, rest, u); }
      else if PairDigits(t, u) { PairParses(t, rest, u); }
      else { EightParses(t, rest, u); }
      PieceParses(t, rest, ScalarBytes(u));
    }
  }

  lemma Regroup(t: Bytes, k: nat, rest: Bytes)
    requires k <= |t|
    ensures t + rest == t[..k] + (t[k..] + rest)
  {
  }

  lemma StopsAtOnce(rest: Bytes)
    requires Closed(rest) && (rest[0] == 0 || rest[0] == 34)
    ensures Parse(rest) == Good([], 0)
  {
  }

  /** The parser gives the UTF-8 of every string for each of its spellings, and stops where the
      spelling ends, at a quote or at the end. */
  lemma {:induction false} SpellingsParse(t: Bytes, rest: Bytes, cps: seq<Scalar>)
    requires Closed(rest) && (rest[0] == 0 || rest[0] == 34)
    requires SpellsAll(t, cps)
    ensures Closed(t + rest) && Parse(t + rest) == Good(Utf8Of(cps), |t|)
    decreases |cps|
  {
    hide Next;
    if cps == [] {
      assert t + rest == rest;
      StopsAtOnce(rest);
    } else {
      var k :| 0 < k <= |t| && Spells(t[..k], cps[0]) && SpellsAll(t[k..], cps[1..]);
      Regroup(t, k, rest);
      SpellingsParse(t[k..], rest, cps[1..]);
      SpellingParses(t[..k], t[k..] + rest, cps[0]);
    }
  }

  // ---------- the printer spells ----------

  /** The text the printer gives one character. */
  function TextOf(u: Scalar, json: bool): Bytes {
    if u < 0x80 then Escaped(u) else Notation(u, json)
  }

  lemma {:induction false} HexDigitsOf(x: int)
    requires 0 <= x < 0x1_0000
    ensures FourDigits([92, 117] + Hex16(x), x)
  {
    var t := [92, 117] + Hex16(x);
    assert t[2..] == Hex16(x) + [];
    Hex16Back(x, []);
  }

  lemma {:induction false} TextSpells(u: Scalar, json: bool)
    ensures TextOf(u, json) != [] && Spells(TextOf(u, json), u)
  {
    var t := TextOf(u, json);
    if u < 0x80 {
      assert ScalarBytes(u) == [u];
    } else if u < 0x1_0000 {
      HexDigitsOf(u);
    } else if json {
      var high, low := HighSurrogate(u), LowSurrogate(u);
      SurrogatesJoin(u);
      HexDigitsOf(high);
      HexDigitsOf(low);
      assert t[..6] == [92, 117] + Hex16(high);
      assert t[6..] == [92, 117] + Hex16(low);
      assert u == 0x1_0000 + (high - 0xD800) * 0x400 + (low - 0xDC00);
      assert PairDigits(t, u);
    } else {
      assert t[2..] == Hex32(u) + [];
      Hex32Back(u, []);
    }
  }

  lemma {:induction false} PrintNextOf(u: Scalar, rest: Bytes, json: bool)
    requires Closed(rest)
    ensures Closed(ScalarBytes(u) + rest)
    ensures PrintNext(ScalarBytes(u) + rest, json) == Write(TextOf(u, json), |ScalarBytes(u)|)
  {
    var s := ScalarBytes(u) + rest;
    assert s[0] == ScalarBytes(u)[0];
    if u >= 0x80 { EncodeInvertsDecode(u, rest); }
  }

  lemma {:induction false} PrintOne(u: Scalar, rest: Bytes, n: nat, json: bool)
    requires Closed(rest) && n < |rest|
    ensures Closed(ScalarBytes(u) + rest)
    ensures Print(ScalarBytes(u) + rest, |ScalarBytes(u)| + n, json) == After(TextOf(u, json), Print(rest, n, json))
  {
    var s := ScalarBytes(u) + rest;
    PrintNextOf(u, rest, json);
    assert s[|ScalarBytes(u)|..] == rest;
  }

  lemma SpellsMore(t: Bytes, tail: Bytes, cps: seq<Scalar>)
    requires cps != [] && t != [] && Spells(t, cps[0]) && SpellsAll(tail, cps[1..])
    ensures SpellsAll(t + tail, cps)
  {
    var s := t + tail;
    assert s[..|t|] == t && s[|t|..] == tail && 0 < |t| <= |s|;
  }

  lemma PrintSpellsMore(cps: seq<Scalar>, rest: Bytes, json: bool)
    requires Closed(rest) && cps != [] && PrintsAs(cps[1..], rest, json)
    ensures PrintsAs(cps, rest, json)
  {
    hide PrintNext, Spells, SpellsAll, TextOf, ScalarBytes, Print;
    var b, more := ScalarBytes(cps[0]), Utf8Of(cps[1..]);
    var s := Utf8Of(cps) + rest;
    Regroup(b + more, |b|, rest);
    assert (b + more)[..|b|] == b && (b + more)[|b|..] == more;
    assert s == b + (more + rest);
    PrintOne(cps[0], more + rest, |more|, json);
    TextSpells(cps[0], json);
    var tail := Print(more + rest, |more|, json).text;
    SpellsMore(TextOf(cps[0], json), tail, cps);
    assert Print(s, |Utf8Of(cps)|, json) == Text(TextOf(cps[0], json) + tail);
  }

  ghost predicate PrintsAs(cps: seq<Scalar>, rest: Bytes, json: bool)
    requires Closed(rest)
  {
    var s := Utf8Of(cps) + rest;
    && Closed(s)
    && var p := Print(s, |Utf8Of(cps)|, json); p.Text? && SpellsAll(p.text, cps)
  }

  /** The printer never fails on UTF-8, and what it writes spells the same string. */
  lemma {:induction false} PrintSpells(cps: seq<Scalar>, rest: Bytes, json: bool)
    requires Closed(rest)
    ensures PrintsAs(cps, rest, json)
    decreases |cps|
  {
    if cps != [] {
      PrintSpells(cps[1..], rest, json);
      PrintSpellsMore(cps, rest, json);
    }
  }

  /** The round trip, in both modes: what is printed for any UTF-8 string parses back to the same
      bytes, quoted or not, and the parse stops at the first byte behind the text, so no quote in
      it is unescaped. */
  lemma {:induction false} RoundTrip(cps: seq<Scalar>, json: bool, rest: Bytes)
    requires Closed(rest) && (rest[0] == 0 || rest[0] == 34)
    ensures var s := Utf8Of(cps);
      var p := Print(s + [0], |s|, json);
      p.Text? && Parse(p.text + rest) == Good(s, |p.text|)
  {
    PrintSpells(cps, [0], json);
    SpellingsParse(Print(Utf8Of(cps) + [0], |Utf8Of(cps)|, json).text, rest, cps);
  }

  // ---------- where the parser takes more than RFC 7159 ----------

  /** `\U` and eight digits are taken exactly for the characters, NUL, and the numbers from
      0x80000000 to 0xFFFFFFFE, which turn negative. */
  lemma {:induction false} EightTakenWhen(s: Bytes, n: nat)
    requires Closed(s) && HexNumber(s, 8, 0) == Hex(n)
    ensures NextEight(s).Put? <==>
      (n <= 0x10FFFF && !(0xD800 <= n <= 0xDFFF) && n != 0xFEFF) || (0x8000_0000 <= n && n != 0xFFFF_FFFF)
  {
    EightBound(s, n);
    var u := ToInt32(n);
    assert NextEight(s) == if u == -1 || IsSurrogate(u) then Wrong else PutCode(u, 10);
    assert PutCode(u, 10).Put? <==> u <= 0x10FFFF && u != 0xFEFF;
  }

  lemma EightBound(s: Bytes, n: nat)
    requires HexNumber(s, 8, 0) == Hex(n)
    ensures n < 0x1_0000_0000 && n % 0x1_0000_0000 == n
  {
    HexNumberBound(s, 8, 0);
    PowersOf16();
  }

  lemma PowersOf16()
    ensures Power16(4) == 0x1_0000 && Power16(8) == 0x1_0000_0000
  {
    assert Power16(4) == 16 * Power16(3);
    assert Power16(8) == 16 * Power16(7) == 16 * 16 * Power16(6) == 16 * 16 * 16 * Power16(5);
  }

  /** Such a number is put as its lowest byte: \U80000041 reads as the letter A. */
  lemma {:induction false} NegativeEightPutsOneByte(s: Bytes, n: nat)
    requires Closed(s) && HexNumber(s, 8, 0) == Hex(n) && 0x8000_0000 <= n != 0xFFFF_FFFF
    ensures NextEight(s) == Put([n % 256], 10)
  {
    EightBound(s, n);
    assert ToInt32(n) % 256 == n % 256;
  }

  /** Four digits outside the surrogate range are taken, but for U+FEFF. */
  lemma {:induction false} FourTakenWhen(s: Bytes, n: nat)
    requires Closed(s) && HexNumber(s, 4, 0) == Hex(n) && !(0xD800 <= n <= 0xDFFF)
    ensures NextFour(s).Put? <==> n != 0xFEFF
  {
    HexNumberBound(s, 4, 0);
    PowersOf16();
  }

  /** Behind a first number in the surrogate range nothing is asked of the second: the two are
      taken exactly when the joined number is in range, and mean a surrogate pair exactly when the
      first is high and the second low. */
  lemma {:induction false} PairTakenWhen(s: Bytes, h: nat, l: nat)
    requires Closed(s) && |s| > 10 && HexNumber(s, 4, 0) == Hex(h) && IsSurrogate(h)
    requires s[4] == 92 && s[5] == 117 && HexNumber(s[6..], 4, 0) == Hex(l)
    ensures NextFour(s).Put? <==> FromSurrogates(h, l) <= 0x10FFFF && FromSurrogates(h, l) != 0xFEFF
    ensures h <= 0xDBFF && 0xDC00 <= l <= 0xDFFF <==>
      exists u :: 0x1_0000 <= u <= 0x10FFFF && HighSurrogate(u) == h && LowSurrogate(u) == l
    ensures h <= 0xDBFF && 0xDC00 <= l <= 0xDFFF ==> NextFour(s).Put? && FromSurrogates(h, l) >= 0x1_0000
  {
    HexNumberBound(s[6..], 4, 0);
    PowersOf16();
    if h <= 0xDBFF && 0xDC00 <= l <= 0xDFFF {
      var u := FromSurrogates(h, l);
      assert HighSurrogate(u) == h && LowSurrogate(u) == l;
    }
  }

  /** The bytes an escape puts are a character of RFC 3629 exactly when the number is one: for a pair
      when the joined number is no surrogate, and for eight digits that turn negative when the lowest
      byte is below 128. */
  lemma {:induction false} PairPutsCharacterWhen(s: Bytes, h: nat, l: nat)
    requires Closed(s) && |s| > 10 && HexNumber(s, 4, 0) == Hex(h) && IsSurrogate(h)
    requires s[4] == 92 && s[5] == 117 && HexNumber(s[6..], 4, 0) == Hex(l) && NextFour(s).Put?
    ensures OneCharacter(NextFour(s).bytes) <==> !IsSurrogate(FromSurrogates(h, l))
  {
    HexNumberBound(s[6..], 4, 0);
    PowersOf16();
    WrittenIsCharacterIff(FromSurrogates(h, l));
  }

  lemma {:induction false} EightPutsCharacterWhen(s: Bytes, n: nat)
    requires Closed(s) && HexNumber(s, 8, 0) == Hex(n) && NextEight(s).Put?
    ensures OneCharacter(NextEight(s).bytes) <==> n < 0x8000_0000 || n % 256 < 128
  {
    EightBound(s, n);
    var u := ToInt32(n);
    assert n >= 0x8000_0000 ==> u % 256 == n % 256;
    WrittenIsCharacterIff(u);
  }

  // ---------- two texts ----------

  /** The text \U80000041 reads as the letter A. */
  lemma EightDigitsReadAsA()
    ensures var s := [92, 85, 56, 48, 48, 48, 48, 48, 52, 49, 0]; Closed(s) && Parse(s) == Good([65], 10)
  {
    hide NextEight, HexNumber, Parse;
    var s := [92, 85, 56, 48, 48, 48, 48, 48, 52, 49, 0];
    var v := s[2..];
    assert v == [56, 48, 48, 48, 48, 48, 52, 49, 0];
    NegativeDigits(v);
    PieceEnds(s, [65], 10);
  }

  lemma NegativeDigits(v: Bytes)
    requires v == [56, 48, 48, 48, 48, 48, 52, 49, 0]
    ensures NextEight(v) == Put([65], 10)
  {
    hide NextEight, HexNumber, DigitsValue;
    ReadsDigits(v, 8, [8, 0, 0, 0, 0, 0, 4, 1]);
    EightValue();
    NegativeEightPutsOneByte(v, 0x8000_0041);
    assert 0x8000_0041 % 256 == 65;
  }

  lemma EightValue()
    ensures DigitsValue([8, 0, 0, 0, 0, 0, 4, 1], 0) == 0x8000_0041
  {
    assert [8, 0, 0, 0, 0, 0, 4, 1] == [8, 0, 0, 0] + ([0, 0, 4, 1] + []);
    FourMore(8, 0, 0, 0, [0, 0, 4, 1] + [], 0);
    FourMore(0, 0, 4, 1, [], 0x8000);
  }

  /** The text \ud800\ud800 reads as U+FC00. */
  lemma TwoHighSurrogatesTaken()
    ensures var s := [92, 117, 100, 56, 48, 48, 92, 117, 100, 56, 48, 48, 0];
      Closed(s) && Parse(s) == Good([0xEF, 0xB0, 0x80], 12)
  {
    var s := [92, 117, 100, 56, 48, 48, 92, 117, 100, 56, 48, 48, 0];
    var v := s[2..];
    HighDigits(v);
    HighDigits(v[6..]);
    assert FromSurrogates(0xD800, 0xD800) == 0xFC00;
    assert DecodeUtf(0xFC00) == Utf8([0xEF, 0xB0, 0x80]);
    PieceEnds(s, [0xEF, 0xB0, 0x80], 12);
  }

  lemma {:induction false} HighDigits(v: Bytes)
    requires |v| >= 4 && v[0] == 100 && v[1] == 56 && v[2] == 48 && v[3] == 48
    ensures HexNumber(v, 4, 0) == Hex(0xD800)
  {
    ReadsDigits(v, 4, [13, 8, 0, 0]);
    FourValue(13, 8, 0, 0);
  }

  function DigitsValue(ds: seq<nat>, acc: nat): nat {
    if ds == [] then acc else DigitsValue(ds[1..], acc * 16 + ds[0])
  }

  lemma {:induction false} ReadsDigits(v: Bytes, n: nat, ds: seq<nat>)
    requires n == |ds| <= |v| && forall i :: 0 <= i < n ==> IsHex(v[i]) && HexDigit(v[i]) == ds[i]
    ensures HexNumber(v, n, 0) == Hex(DigitsValue(ds, 0))
  {
    ReadsDigitsFrom(v, n, ds, 0);
  }

  lemma {:induction false} ReadsDigitsFrom(v: Bytes, n: nat, ds: seq<nat>, acc: nat)
    requires n == |ds| <= |v| && forall i :: 0 <= i < n ==> IsHex(v[i]) && HexDigit(v[i]) == ds[i]
    ensures HexNumber(v, n, acc) == Hex(DigitsValue(ds, acc))
    decreases n
  {
    if n > 0 { ReadsDigitsFrom(v[1..], n - 1, ds[1..], acc * 16 + ds[0]); }
  }

  lemma OneValue(d: nat, ds: seq<nat>, acc: nat)
    ensures DigitsValue([d] + ds, acc) == DigitsValue(ds, acc * 16 + d)
  {
    assert ([d] + ds)[1..] == ds;
  }

  lemma FourValue(a: nat, b: nat, c: nat, d: nat)
    ensures DigitsValue([a, b, c, d], 0) == ((a * 16 + b) * 16 + c) * 16 + d
  {
    FourMore(a, b, c, d, [], 0);
    assert [a, b, c, d] == [a, b, c, d] + [];
  }

  lemma FourMore(a: nat, b: nat, c: nat, d: nat, ds: seq<nat>, acc: nat)
    ensures DigitsValue([a, b, c, d] + ds, acc) == DigitsValue(ds, (((acc * 16 + a) * 16 + b) * 16 + c) * 16 + d)
  {
    assert [a, b, c, d] + ds == [a] + ([b] + ([c] + ([d] + ds)));
    OneValue(a, [b] + ([c] + ([d] + ds)), acc);
    OneValue(b, [c] + ([d] + ds), acc * 16 + a);
    OneValue(c, [d] + ds, (acc * 16 + a) * 16 + b);
    OneValue(d, ds, ((acc * 16 + a) * 16 + b) * 16 + c);
  }

  /** A text of one piece. */
  lemma PieceEnds(s: Bytes, b: Bytes, n: nat)
    requires Closed(s) && n == |s| - 1 && Next(s) == Put(b, n)
    ensures Parse(s) == Good(b, n)
  {
    hide Next;
    assert s[n..] == [0];
    StopsAtOnce([0]);
    assert b + [] == b;
  }
}
