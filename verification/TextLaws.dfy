/** What the texts of utfs.c look like, whatever the string: which escapes the printer writes, which
    bytes never occur, and which escapes the parser refuses. Section 7 of RFC 7159. */
module TextLaws {
  import opened Bytes
  import opened Utf
  import opened TextCodec
  import opened TextRoundTrip

  // ---------- hexadecimal digits ----------

  /** Digits are written in lower case and read in both. */
  lemma HexTable(k: nat)
    requires k < 16
    ensures ToHex(k) == "0123456789abcdef"[k] as int
    ensures HexDigit("0123456789abcdef"[k] as int) == k && HexDigit("0123456789ABCDEF"[k] as int) == k
  {
  }

  predicate HexLetter(c: byte) {
    (c as char) in "0123456789abcdefABCDEF"
  }

  lemma HexLetters(c: byte)
    ensures IsHex(c) <==> HexLetter(c)
  {
    assert "0123456789abcdefABCDEF" == ['0', '1', '2', '3', '4', '5', '6', '7', '8', '9',
                                        'a', 'b', 'c', 'd', 'e', 'f', 'A', 'B', 'C', 'D', 'E', 'F'];
    if IsHex(c) {
      var k := if c <= 57 then c - 48 else if c >= 97 then c - 87 else c - 49;
      assert "0123456789abcdefABCDEF"[k] == c as char;
    }
  }

  // ---------- one character, as it is printed ----------

  predicate LowerCase(t: Bytes) {
    forall k :: 0 <= k < |t| ==> !(65 <= t[k] <= 70)
  }

  /** The one spelling that the printer chooses. */
  ghost predicate Rendered(t: Bytes, u: Scalar, json: bool) {
    if u == 34 then t == [92, 34]
    else if u == 92 then t == [92, 92]
    else if u == 8 then t == [92, 98]
    else if u == 9 then t == [92, 116]
    else if u == 10 then t == [92, 110]
    else if u == 12 then t == [92, 102]
    else if u == 13 then t == [92, 114]
    else if u < 0x80 then t == [u]
    else LowerCase(t) && if u < 0x1_0000 then FourDigits(t, u) else if json then PairDigits(t, u) else EightDigits(t, u)
  }

  lemma {:induction false} TextRenders(u: Scalar, json: bool)
    ensures Rendered(TextOf(u, json), u, json)
  {
    if u >= 0x80 {
      NotationVisible(u, json);
      if u < 0x1_0000 {
        HexDigitsOf(u);
      } else if json {
        PairRenders(u);
      } else {
        EightRenders(u);
      }
    }
  }

  lemma {:induction false} PairRenders(u: Scalar)
    requires u >= 0x1_0000
    ensures PairDigits(Notation(u, true), u)
  {
    var t, high, low := Notation(u, true), HighSurrogate(u), LowSurrogate(u);
    SurrogatesJoin(u);
    HexDigitsOf(high);
    HexDigitsOf(low);
    assert t[..6] == [92, 117] + Hex16(high);
    assert t[6..] == [92, 117] + Hex16(low);
    assert u == 0x1_0000 + (high - 0xD800) * 0x400 + (low - 0xDC00);
  }

  lemma {:induction false} EightRenders(u: Scalar)
    requires u >= 0x1_0000
    ensures EightDigits(Notation(u, false), u)
  {
    var t := Notation(u, false);
    assert t[2..] == Hex32(u) + [];
    Hex32Back(u, []);
  }

  /** The bytes of a notation: a backslash, a letter u or U, digits and lower-case letters. */
  predicate Visible(c: byte) {
    c == 92 || c == 117 || c == 85 || 48 <= c <= 57 || 97 <= c <= 102
  }

  predicate AllVisible(t: Bytes) {
    forall k :: 0 <= k < |t| ==> Visible(t[k])
  }

  lemma HexVisible(x: nat)
    ensures AllVisible(Hex16(x)) && AllVisible(Hex32(x))
  {
    ByteVisible(x / 0x100_0000 % 256);
    ByteVisible(x / 0x1_0000 % 256);
    ByteVisible(x / 0x100 % 256);
    ByteVisible(x % 256);
    VisibleJoin(HexByte(x / 0x100 % 256), HexByte(x % 256));
    VisibleJoin(HexByte(x / 0x100_0000 % 256), HexByte(x / 0x1_0000 % 256));
    VisibleJoin(HexByte(x / 0x100_0000 % 256) + HexByte(x / 0x1_0000 % 256), Hex16(x));
  }

  lemma ByteVisible(x: nat)
    requires x < 256
    ensures AllVisible(HexByte(x))
  {
  }

  lemma VisibleJoin(a: Bytes, b: Bytes)
    requires AllVisible(a) && AllVisible(b)
    ensures AllVisible(a + b)
  {
  }

  lemma {:induction false} NotationVisible(u: nat, json: bool)
    ensures AllVisible(Notation(u, json)) && LowerCase(Notation(u, json))
  {
    hide Hex16, Hex32;
    HexVisible(u);
    if u >= 0x1_0000 {
      HexVisible(HighSurrogate(u));
      HexVisible(LowSurrogate(u));
      VisibleJoin([92, 117], Hex16(HighSurrogate(u)));
      VisibleJoin([92, 117] + Hex16(HighSurrogate(u)), [92, 117]);
      VisibleJoin([92, 117] + Hex16(HighSurrogate(u)) + [92, 117], Hex16(LowSurrogate(u)));
      VisibleJoin([92, 85], Hex32(u));
    } else {
      VisibleJoin([92, 117], Hex16(u));
    }
  }

  // ---------- whole strings of characters ----------

  /** A text that renders a string, character by character. */
  ghost predicate RendersAll(t: Bytes, cps: seq<Scalar>, json: bool)
    decreases |cps|
  {
    if cps == [] then t == []
    else exists k :: 0 < k <= |t| && Rendered(t[..k], cps[0], json) && RendersAll(t[k..], cps[1..], json)
  }

  lemma RendersMore(t: Bytes, tail: Bytes, cps: seq<Scalar>, json: bool)
    requires cps != [] && t != [] && Rendered(t, cps[0], json) && RendersAll(tail, cps[1..], json)
    ensures RendersAll(t + tail, cps, json)
  {
    hide Rendered;
    var s := t + tail;
    assert s[..|t|] == t && s[|t|..] == tail && 0 < |t| <= |s|;
  }

  ghost predicate PrintRendersAs(cps: seq<Scalar>, rest: Bytes, json: bool)
    requires Closed(rest)
  {
    var s := Utf8Of(cps) + rest;
    && Closed(s)
    && var p := Print(s, |Utf8Of(cps)|, json); p.Text? && RendersAll(p.text, cps, json)
  }

  lemma {:induction false} RenderOneMore(cps: seq<Scalar>, rest: Bytes, json: bool)
    requires Closed(rest) && cps != [] && PrintRendersAs(cps[1..], rest, json)
    ensures PrintRendersAs(cps, rest, json)
  {
    hide PrintNext, Rendered, RendersAll, TextOf, ScalarBytes, Print;
    var b, more := ScalarBytes(cps[0]), Utf8Of(cps[1..]);
    Regroup(b + more, |b|, rest);
    assert (b + more)[..|b|] == b && (b + more)[|b|..] == more;
    PrintOne(cps[0], more + rest, |more|, json);
    TextRenders(cps[0], json);
    TextSpells(cps[0], json);
    RendersMore(TextOf(cps[0], json), Print(more + rest, |more|, json).text, cps, json);
  }

  /** Every string of characters is printed with the one spelling that the printer has for each. */
  lemma {:induction false} PrintRenders(cps: seq<Scalar>, rest: Bytes, json: bool)
    requires Closed(rest)
    ensures PrintRendersAs(cps, rest, json)
    decreases |cps|
  {
    if cps != [] {
      PrintRenders(cps[1..], rest, json);
      RenderOneMore(cps, rest, json);
    }
  }

  // ---------- any bytes ----------

  /** The controls that have a short escape: backspace, tab, newline, form feed and carriage return. */
  predicate HasEscape(c: byte) {
    c == 8 || c == 9 || c == 10 || c == 12 || c == 13
  }

  /** The other controls, which are copied. */
  predicate Copied(c: byte) {
    c < 32 && !HasEscape(c)
  }

  ghost predicate AnyCopied(t: Bytes, n: nat) {
    exists k :: 0 <= k < n && k < |t| && Copied(t[k])
  }

  /** What one turn writes: no control with an escape, and a copied one exactly for a copied one. */
  lemma {:induction false} StrokeBytes(s: Bytes, json: bool)
    requires Closed(s) && |s| > 1 && PrintNext(s, json).Write?
    ensures var t := PrintNext(s, json).text;
      && (forall k :: 0 <= k < |t| ==> !HasEscape(t[k]) && (t[k] < 32 ==> Copied(s[0])))
      && (Copied(s[0]) ==> t == [s[0]])
  {
    if s[0] >= 192 {
      hide Notation;
      NotationVisible(EncodeUtf(s).u, json);
    }
  }

  /** Whatever the bytes and the mode, a control that has a short escape never occurs in the text. */
  lemma {:induction false} NoEscapedControls(s: Bytes, n: nat, json: bool)
    requires Closed(s) && n < |s| && Print(s, n, json).Text?
    ensures var t := Print(s, n, json).text; forall k :: 0 <= k < |t| ==> t[k] !in {8, 9, 10, 12, 13}
    decreases n
  {
    hide PrintNext;
    if n > 0 {
      StrokeBytes(s, json);
      var w := PrintNext(s, json);
      NoEscapedControls(s[w.taken..], if n > w.taken then n - w.taken else 0, json);
    }
  }

  /** The text has a byte below 32 if and only if the string has one below n that has no short escape: those
      are copied as they are, which RFC 7159 does not allow. */
  lemma {:induction false} ControlsCopied(s: Bytes, n: nat, json: bool)
    requires Closed(s) && n < |s| && Print(s, n, json).Text?
    ensures var t := Print(s, n, json).text;
      (exists k :: 0 <= k < |t| && t[k] < 32) <==> exists k :: 0 <= k < n && s[k] < 32 && s[k] !in {8, 9, 10, 12, 13}
    decreases n
  {
    ControlsCount(s, n, json);
    var t := Print(s, n, json).text;
    if AnyCopied(s, n) {
      var k :| 0 <= k < n && k < |s| && Copied(s[k]);
      assert s[k] < 32 && s[k] !in {8, 9, 10, 12, 13};
    }
    if k :| 0 <= k < n && s[k] < 32 && s[k] !in {8, 9, 10, 12, 13} { assert Copied(s[k]); }
  }

  lemma {:induction false} ControlsCount(s: Bytes, n: nat, json: bool)
    requires Closed(s) && n < |s| && Print(s, n, json).Text?
    ensures var t := Print(s, n, json).text; (exists k :: 0 <= k < |t| && t[k] < 32) <==> AnyCopied(s, n)
    decreases n
  {
    hide PrintNext;
    if n > 0 {
      StrokeBytes(s, json);
      var w := PrintNext(s, json);
      var m := if n > w.taken then n - w.taken else 0;
      var rest := s[w.taken..];
      ControlsCount(rest, m, json);
      var t, more := Print(s, n, json).text, Print(rest, m, json).text;
      assert t == w.text + more;
      LowJoin(w.text, more);
      if Copied(s[0]) { assert w.text[0] < 32; }
      CopiedSplit(s, n, w.taken);
    }
  }

  lemma LowJoin(a: Bytes, b: Bytes)
    ensures (exists k :: 0 <= k < |a + b| && (a + b)[k] < 32)
      <==> (exists k :: 0 <= k < |a| && a[k] < 32) || (exists k :: 0 <= k < |b| && b[k] < 32)
  {
    if k :| 0 <= k < |a| && a[k] < 32 { assert (a + b)[k] < 32; }
    if k :| 0 <= k < |b| && b[k] < 32 { assert (a + b)[|a| + k] < 32; }
  }

  lemma CopiedSplit(s: Bytes, n: nat, k: nat)
    requires 0 < k < |s| && 0 < n < |s| && forall i :: 0 < i < k ==> s[i] >= 128
    ensures AnyCopied(s, n) <==> Copied(s[0]) || AnyCopied(s[k..], if n > k then n - k else 0)
  {
    var m := if n > k then n - k else 0;
    if AnyCopied(s, n) && !Copied(s[0]) {
      var i :| 0 <= i < n && i < |s| && Copied(s[i]);
      assert i >= k && s[k..][i - k] == s[i];
    }
    if AnyCopied(s[k..], m) {
      var i :| 0 <= i < m && i < |s[k..]| && Copied(s[k..][i]);
      assert s[k + i] == s[k..][i];
    }
  }

  lemma PlainStroke(s: Bytes, json: bool)
    requires Closed(s) && |s| > 1 && 32 <= s[0] < 192 && s[0] != 34 && s[0] != 92
    ensures PrintNext(s, json) == Write([s[0]], 1)
  {
  }

  /** A stretch of printable characters other than quote and backslash, and of bytes that begin no
      sequence, is printed as it is. */
  lemma {:induction false} PlainPrintsItself(a: Bytes, rest: Bytes, n: nat, json: bool)
    requires Closed(rest) && n < |rest|
    requires forall k :: 0 <= k < |a| ==> 32 <= a[k] < 192 && a[k] != 34 && a[k] != 92
    ensures Closed(a + rest) && Print(a + rest, |a| + n, json) == After(a, Print(rest, n, json))
  {
    hide PrintNext, Print;
    if a == [] {
      assert a + rest == rest;
      PrintStarts(rest, n, json);
    } else {
      var s := a + rest;
      assert s[0] == a[0] && s[1..] == a[1..] + rest;
      PlainPrintsItself(a[1..], rest, n, json);
      PlainTurn(s, |a| + n, json);
      AfterTwice(a, Print(rest, n, json));
    }
  }

  lemma PlainTurn(s: Bytes, n: nat, json: bool)
    requires Closed(s) && 0 < n < |s| && 32 <= s[0] < 192 && s[0] != 34 && s[0] != 92
    ensures Print(s, n, json) == After([s[0]], Print(s[1..], n - 1, json))
  {
    hide PrintNext;
    PlainStroke(s, json);
  }

  lemma AfterTwice(a: Bytes, p: Printed)
    requires a != []
    ensures After([a[0]], After(a[1..], p)) == After(a, p)
  {
    if p.Text? { assert [a[0]] + (a[1..] + p.text) == a + p.text; }
  }

  /** How many bytes a sequence has, by its first byte. */
  function SequenceLength(c: byte): nat {
    if c >= 240 then 4 else if c >= 224 then 3 else if c >= 192 then 2 else 1
  }

  /** The sequence at the front lacks a byte: one of those that should follow is below 128. */
  ghost predicate CutShort(s: Bytes)
    requires Closed(s)
  {
    s[0] >= 192 && exists k :: 0 < k < SequenceLength(s[0]) && k < |s| && s[k] < 128
  }

  lemma {:induction false} StrokeFailsWhen(s: Bytes, json: bool)
    requires Closed(s) && |s| > 1
    ensures PrintNext(s, json) == Fail <==> CutShort(s)
  {
    hide Notation;
    if PrintNext(s, json) == Fail {
      assert SequenceLength(s[0]) > 1;
      if s[1] >= 128 && s[2] >= 128 { assert s[3] < 128; } else if s[1] >= 128 { assert s[2] < 128; }
    }
  }

  /** Behind any string of characters a sequence that is cut short makes the printer fail. */
  lemma {:induction false} CutSequenceIsRefused(cps: seq<Scalar>, rest: Bytes, n: nat, json: bool)
    requires Closed(rest) && 0 < n < |rest| && CutShort(rest)
    ensures Closed(Utf8Of(cps) + rest) && Print(Utf8Of(cps) + rest, |Utf8Of(cps)| + n, json) == BadText
    decreases |cps|
  {
    hide PrintNext, CutShort, ScalarBytes;
    if cps == [] {
      StrokeFailsWhen(rest, json);
      assert Utf8Of(cps) + rest == rest;
    } else {
      hide Print;
      var b, more := ScalarBytes(cps[0]), Utf8Of(cps[1..]);
      CutSequenceIsRefused(cps[1..], rest, n, json);
      assert Utf8Of(cps) + rest == b + (more + rest);
      PrintOne(cps[0], more + rest, |more| + n, json);
    }
  }

  // ---------- what the parser refuses ----------

  /** The text behind a spelled string decides. */
  lemma {:induction false} SpellingBefore(t: Bytes, rest: Bytes, cps: seq<Scalar>)
    requires Closed(rest) && SpellsAll(t, cps)
    ensures Closed(t + rest) && Parse(t + rest) == Before(Utf8Of(cps), |t|, Parse(rest))
    decreases |cps|
  {
    hide Next, Parse;
    if cps == [] {
      assert t + rest == rest;
      BeforeNone(Parse(rest));
    } else {
      var k :| 0 < k <= |t| && Spells(t[..k], cps[0]) && SpellsAll(t[k..], cps[1..]);
      Regroup(t, k, rest);
      SpellingBefore(t[k..], rest, cps[1..]);
      SpellingParses(t[..k], t[k..] + rest, cps[0]);
      BeforeTwice(ScalarBytes(cps[0]), k, Utf8Of(cps[1..]), |t| - k, Parse(rest));
    }
  }

  /** A backslash before anything but the eight characters of a short escape, u and U; a u not
      followed by four digits, or a U not followed by eight; and a number in the surrogate range that no
      second escape follows. */
  ghost predicate BadEscape(s: Bytes) {
    && |s| > 1 && s[0] == 92
    && (|| (s[1] as char) !in "\"\\/bfnrtuU"
        || (s[1] == 117 && exists k :: 2 <= k < 6 && k < |s| && !HexLetter(s[k]))
        || (s[1] == 85 && exists k :: 2 <= k < 10 && k < |s| && !HexLetter(s[k]))
        || LoneSurrogate(s))
  }

  ghost predicate LoneSurrogate(s: Bytes) {
    && |s| > 6 && s[1] == 117
    && (s[2] as char) in "dD" && (s[3] as char) in "89abcdefABCDEF" && HexLetter(s[4]) && HexLetter(s[5])
    && (s[6] != 92 || |s| < 8 || s[7] != 117 || exists k :: 8 <= k < 12 && k < |s| && !HexLetter(s[k]))
  }

  lemma {:induction false} BadHexWhen(s: Bytes, n: nat, acc: nat, k: nat)
    requires k < n && k < |s| && !IsHex(s[k])
    ensures HexNumber(s, n, acc).BadHex?
  {
    if IsHex(s[0]) { BadHexWhen(s[1..], n - 1, acc * 16 + HexDigit(s[0]), k - 1); }
  }

  lemma {:induction false} SurrogateDigits(v: Bytes)
    requires |v| >= 4 && (v[0] as char) in "dD" && (v[1] as char) in "89abcdefABCDEF" && IsHex(v[2]) && IsHex(v[3])
    ensures HexNumber(v, 4, 0).Hex? && IsSurrogate(HexNumber(v, 4, 0).value)
  {
    assert IsHex(v[0]) && IsHex(v[1]) && HexDigit(v[0]) == 13 && HexDigit(v[1]) >= 8;
    var a, b, c, d := HexDigit(v[0]), HexDigit(v[1]), HexDigit(v[2]), HexDigit(v[3]);
    ReadsDigits(v, 4, [a, b, c, d]);
    FourValue(a, b, c, d);
  }

  lemma {:induction false} BadEscapeIsWrong(s: Bytes)
    requires Closed(s) && BadEscape(s)
    ensures Next(s).Wrong?
  {
    hide HexNumber;
    var v := s[2..];
    if (s[1] as char) !in "\"\\/bfnrtuU" {
      KnownEscapes(s[1]);
    } else if s[1] == 85 {
      var k :| 2 <= k < 10 && k < |s| && !HexLetter(s[k]);
      HexLetters(s[k]);
      assert v[k - 2] == s[k];
      BadHexWhen(v, 8, 0, k - 2);
    } else if LoneSurrogate(s) {
      HexLetters(s[4]);
      HexLetters(s[5]);
      SurrogateDigits(v);
      if |v| >= 6 && v[4] == 92 && v[5] == 117 {
        var k :| 8 <= k < 12 && k < |s| && !HexLetter(s[k]);
        HexLetters(s[k]);
        assert v[6..][k - 8] == s[k];
        BadHexWhen(v[6..], 4, 0, k - 8);
      }
    } else {
      var k :| 2 <= k < 6 && k < |s| && !HexLetter(s[k]);
      HexLetters(s[k]);
      assert v[k - 2] == s[k];
      BadHexWhen(v, 4, 0, k - 2);
    }
  }

  lemma KnownEscapes(c: byte)
    ensures Short(c) >= 0 || c == 85 || c == 117 ==> (c as char) in "\"\\/bfnrtuU"
  {
    if Short(c) >= 0 || c == 85 || c == 117 {
      var k := if c == 34 then 0 else if c == 92 then 1 else if c == 47 then 2 else if c == 98 then 3 else if c == 102 then 4
               else if c == 110 then 5 else if c == 114 then 6 else if c == 116 then 7 else if c == 117 then 8 else 9;
      assert "\"\\/bfnrtuU"[k] == c as char;
    }
  }

  /** A text with such an escape behind any spelled string is refused as a whole. */
  lemma {:induction false} BadEscapeIsRefused(t: Bytes, cps: seq<Scalar>, rest: Bytes)
    requires SpellsAll(t, cps) && Closed(rest) && BadEscape(rest)
    ensures Closed(t + rest) && Parse(t + rest) == Bad
  {
    hide BadEscape, SpellsAll;
    BadEscapeIsWrong(rest);
    SpellingBefore(t, rest, cps);
  }

  /** The short escapes that are read, behind any spelled string. */
  lemma {:induction false} ShortEscapesRead(t: Bytes, cps: seq<Scalar>, c: byte, rest: Bytes)
    requires SpellsAll(t, cps) && Closed(rest) && (c as char) in "\"\\/bfnrt"
    ensures var u := if c == 98 then 8 else if c == 102 then 12 else if c == 110 then 10
                     else if c == 114 then 13 else if c == 116 then 9 else c;
      Parse(t + ([92, c] + rest)) == Before(Utf8Of(cps) + [u], |t| + 2, Parse(rest))
  {
    hide SpellsAll, Parse;
    assert "\"\\/bfnrt" == ['\"', '\\', '/', 'b', 'f', 'n', 'r', 't'];
    assert EscapeOf(c, Short(c));
    var u: byte := Short(c);
    SpellingBefore(t, [92, c] + rest, cps);
    SpellingParses([92, c], rest, u);
    assert ScalarBytes(u) == [u];
    BeforeTwice(Utf8Of(cps), |t|, [u], 2, Parse(rest));
  }
}
