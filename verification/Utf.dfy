/** utf.c: UTF-8 sequences (section 3 of RFC 3629), surrogate pairs and hexadecimal escapes. */
module Utf {
  import opened Bytes

  datatype Encoded = Code(u: int, bytes: nat) | BadUtf

  /** The low bits of a byte, under a mask that is one less than a power of two. */
  function Bits(b: byte, mask: nat): nat
    requires mask > 0
  {
    b as int % mask
  }

  /** rim_encode_utf: the number a UTF-8 sequence stands for and its length. The sequence is at
      the front of a string closed by a NUL, which is never a continuation byte. */
  function EncodeUtf(s: Bytes): (e: Encoded)
    requires |s| > 0 && s[|s| - 1] == 0
    ensures e.Code? ==> 1 <= e.bytes <= 4 && (e.bytes < |s| || s == [0]) && 0 <= e.u < 0x20_0000
  {
    if s[0] < 128 then Code(s[0], 1)
    else if s[0] >= 240 then
      if s[1] < 128 || s[2] < 128 || s[3] < 128 then BadUtf
      else Code(Bits(s[0], 8) * 0x4_0000 + Bits(s[1], 64) * 0x1000 + Bits(s[2], 64) * 0x40 + Bits(s[3], 64), 4)
    else if s[0] >= 224 then
      if s[1] < 128 || s[2] < 128 then BadUtf
      else Code(Bits(s[0], 16) * 0x1000 + Bits(s[1], 64) * 0x40 + Bits(s[2], 64), 3)
    else if s[0] >= 192 then
      if s[1] < 128 then BadUtf
      else Code(Bits(s[0], 32) * 0x40 + Bits(s[1], 64), 2)
    else BadUtf
  }

  datatype Decoded = Utf8(bytes: Bytes) | BadCode

  /** rim_decode_utf: the UTF-8 bytes of a number. U+FEFF and numbers beyond 0x10FFFF are errors;
      a negative number passes the first test and keeps its lowest byte. */
  function DecodeUtf(u: int): (d: Decoded)
    ensures d.Utf8? ==> 1 <= |d.bytes| <= 4
  {
    if u <= 0x7F then Utf8([u % 256])
    else if u <= 0x7FF then Utf8([192 + u / 64, 128 + u % 64])
    else if u <= 0xFFFF then
      if u == 0xFEFF then BadCode
      else Utf8([224 + u / 0x1000, 128 + u / 64 % 64, 128 + u % 64])
    else if u <= 0x10FFFF then
      Utf8([240 + u / 0x4_0000, 128 + u / 0x1000 % 64, 128 + u / 64 % 64, 128 + u % 64])
    else BadCode
  }

  /** A Unicode scalar value other than U+FEFF and NUL. */
  type Scalar = u: int | 0 < u <= 0x10FFFF && !(0xD800 <= u <= 0xDFFF) && u != 0xFEFF witness 1

  /** A leading octet with its prefix, and a following octet with its six bits. */
  predicate Leads(b: byte, prefix: int, bits: int) {
    b as int == prefix + bits
  }

  predicate Follows(b: byte, bits: int) {
    0 <= bits < 64 && b as int == 0x80 + bits
  }

  /** Section 3 of RFC 3629, by its own table: how many octets, and which bits go where. */
  ghost predicate Rfc3629(u: int, s: Bytes) {
    if u < 0x80 then |s| == 1 && s[0] == u
    else if u < 0x800 then
      |s| == 2 && exists y, x :: u == y * 64 + x && Leads(s[0], 0xC0, y) && Follows(s[1], x)
    else if u < 0x10000 then
      |s| == 3 && exists z, y, x ::
        u == (z * 64 + y) * 64 + x && Leads(s[0], 0xE0, z) && Follows(s[1], y) && Follows(s[2], x)
    else
      |s| == 4 && exists w, z, y, x ::
        u == ((w * 64 + z) * 64 + y) * 64 + x
        && Leads(s[0], 0xF0, w) && Follows(s[1], z) && Follows(s[2], y) && Follows(s[3], x)
  }

  lemma {:induction false} Split64(u: int, q: int, r: int)
    requires u == q * 64 + r && 0 <= r < 64
    ensures u / 64 == q && u % 64 == r
  {
  }

  lemma {:induction false} Nested(u: int)
    requires u >= 0
    ensures u / 0x1000 == u / 64 / 64 && u / 0x4_0000 == u / 0x1000 / 64
    ensures u == u / 64 * 64 + u % 64
    ensures u / 64 == u / 0x1000 * 64 + u / 64 % 64
    ensures u / 0x1000 == u / 0x4_0000 * 64 + u / 0x1000 % 64
  {
  }

  /** The bytes written are exactly the ones RFC 3629 prescribes. */
  lemma {:induction false} DecodeMeetsRfc3629(u: Scalar, s: Bytes)
    ensures DecodeUtf(u).Utf8?
    ensures Rfc3629(u, s) <==> s == DecodeUtf(u).bytes
  {
    var d := DecodeUtf(u).bytes;
    Nested(u);
    assert Rfc3629(u, d) by { WrittenOctets(u); }
    if Rfc3629(u, s) { SameOctets(u, s); }
  }

  lemma {:induction false} WrittenOctets(u: Scalar)
    ensures Rfc3629(u, DecodeUtf(u).bytes)
  {
    var d := DecodeUtf(u).bytes;
    Nested(u);
    if 0x80 <= u < 0x800 {
      assert u == u / 64 * 64 + u % 64 && Leads(d[0], 0xC0, u / 64) && Follows(d[1], u % 64);
    } else if 0x800 <= u < 0x10000 {
      var z, y, x := u / 0x1000, u / 64 % 64, u % 64;
      assert u == (z * 64 + y) * 64 + x && Leads(d[0], 0xE0, z) && Follows(d[1], y) && Follows(d[2], x);
    } else if 0x10000 <= u {
      var w, z, y, x := u / 0x4_0000, u / 0x1000 % 64, u / 64 % 64, u % 64;
      assert u == ((w * 64 + z) * 64 + y) * 64 + x;
      assert Leads(d[0], 0xF0, w) && Follows(d[1], z) && Follows(d[2], y) && Follows(d[3], x);
    }
  }

  lemma {:induction false} SameOctets(u: Scalar, s: Bytes)
    requires Rfc3629(u, s)
    ensures s == DecodeUtf(u).bytes
  {
    if u < 0x80 {
      assert s == [u];
    } else if u < 0x800 {
      SameTwo(u, s);
    } else if u < 0x10000 {
      SameThree(u, s);
    } else {
      SameFour(u, s);
    }
  }

  lemma {:induction false} SameTwo(u: int, s: Bytes)
    requires 0x80 <= u < 0x800 && Rfc3629(u, s)
    ensures s == [192 + u / 64, 128 + u % 64]
  {
    var y, x :| u == y * 64 + x && Leads(s[0], 0xC0, y) && Follows(s[1], x);
    Split64(u, y, x);
  }

  lemma {:induction false} SameThree(u: int, s: Bytes)
    requires 0x800 <= u < 0x10000 && Rfc3629(u, s)
    ensures s == [224 + u / 0x1000, 128 + u / 64 % 64, 128 + u % 64]
  {
    var z, y, x :| u == (z * 64 + y) * 64 + x && Leads(s[0], 0xE0, z) && Follows(s[1], y) && Follows(s[2], x);
    SplitThree(u, z, y, x);
  }

  lemma {:induction false} SameFour(u: int, s: Bytes)
    requires 0x10000 <= u <= 0x10FFFF && Rfc3629(u, s)
    ensures s == [240 + u / 0x4_0000, 128 + u / 0x1000 % 64, 128 + u / 64 % 64, 128 + u % 64]
  {
    var w, z, y, x :| u == ((w * 64 + z) * 64 + y) * 64 + x
      && Leads(s[0], 0xF0, w) && Follows(s[1], z) && Follows(s[2], y) && Follows(s[3], x);
    SplitFour(u, w, z, y, x);
  }

  lemma {:induction false} SplitThree(u: int, z: int, y: int, x: int)
    requires u >= 0 && u == (z * 64 + y) * 64 + x && 0 <= y < 64 && 0 <= x < 64
    ensures u / 0x1000 == z && u / 64 % 64 == y && u % 64 == x && u / 64 == z * 64 + y
  {
    Nested(u);
    Split64(u, z * 64 + y, x);
    Split64(u / 64, z, y);
  }

  lemma {:induction false} SplitFour(u: int, w: int, z: int, y: int, x: int)
    requires u >= 0 && u == ((w * 64 + z) * 64 + y) * 64 + x && 0 <= z < 64 && 0 <= y < 64 && 0 <= x < 64
    ensures u / 0x4_0000 == w && u / 0x1000 % 64 == z && u / 64 % 64 == y && u % 64 == x
  {
    Nested(u);
    SplitThree(u, w * 64 + z, y, x);
    Split64(u / 0x1000, w, z);
  }

  /** The octets of one character. RFC 3629 has none for the surrogates. */
  ghost predicate OneCharacter(s: Bytes) {
    exists u :: 0 <= u <= 0x10FFFF && !(0xD800 <= u <= 0xDFFF) && Rfc3629(u, s)
  }

  /** What is written for a number up to 0x10FFFF is a character exactly when the number is no
      surrogate; a negative one gives a character when its lowest byte is below 128. */
  lemma {:induction false} WrittenIsCharacterIff(u: int)
    requires DecodeUtf(u).Utf8?
    ensures OneCharacter(DecodeUtf(u).bytes) <==> if u < 0 then u % 256 < 128 else !(0xD800 <= u <= 0xDFFF)
  {
    var d := DecodeUtf(u).bytes;
    if u <= 0x7F {
      if u % 256 < 128 { assert Rfc3629(u % 256, d); }
    } else if 0xD800 <= u <= 0xDFFF {
      if OneCharacter(d) {
        var v :| 0 <= v <= 0x10FFFF && !(0xD800 <= v <= 0xDFFF) && Rfc3629(v, d);
        SurrogateHasNoCharacter(u, v, d);
      }
    } else {
      WrittenOctets(u);
    }
  }

  lemma {:induction false} SurrogateHasNoCharacter(u: int, v: int, d: Bytes)
    requires 0xD800 <= u <= 0xDFFF && DecodeUtf(u) == Utf8(d) && 0 <= v <= 0x10FFFF && Rfc3629(v, d)
    ensures u == v
  {
    var z, y, x :|
      v == (z * 64 + y) * 64 + x && Leads(d[0], 0xE0, z) && Follows(d[1], y) && Follows(d[2], x);
    Nested(u);
  }

  /** Reading back what was written gives the number and the length, whatever follows. */
  lemma {:induction false} EncodeInvertsDecode(u: Scalar, rest: Bytes)
    requires |rest| > 0 && rest[|rest| - 1] == 0
    ensures EncodeUtf(DecodeUtf(u).bytes + rest) == Code(u, |DecodeUtf(u).bytes|)
  {
    var d := DecodeUtf(u).bytes;
    var s := d + rest;
    assert s[|s| - 1] == 0;
    assert forall k :: 0 <= k < |d| ==> s[k] == d[k];
    if u < 0x80 {
    } else if u < 0x800 {
      ReadsTwo(u, s);
    } else if u < 0x10000 {
      ReadsThree(u, s);
    } else {
      ReadsFour(u, s);
    }
  }

  lemma {:induction false} ReadsTwo(u: int, s: Bytes)
    requires 0x80 <= u < 0x800
    requires |s| > 2 && s[|s| - 1] == 0 && s[0] == 192 + u / 64 && s[1] == 128 + u % 64
    ensures EncodeUtf(s) == Code(u, 2)
  {
    assert Bits(s[0], 32) == u / 64 && Bits(s[1], 64) == u % 64;
  }

  lemma {:induction false} ReadsThree(u: int, s: Bytes)
    requires 0x800 <= u < 0x10000
    requires |s| > 3 && s[|s| - 1] == 0
    requires s[0] == 224 + u / 0x1000 && s[1] == 128 + u / 64 % 64 && s[2] == 128 + u % 64
    ensures EncodeUtf(s) == Code(u, 3)
  {
    Nested(u);
    assert Bits(s[0], 16) == u / 0x1000 && Bits(s[1], 64) == u / 64 % 64 && Bits(s[2], 64) == u % 64;
  }

  lemma {:induction false} ReadsFour(u: int, s: Bytes)
    requires 0x10000 <= u < 0x110000
    requires |s| > 4 && s[|s| - 1] == 0
    requires s[0] == 240 + u / 0x4_0000 && s[1] == 128 + u / 0x1000 % 64
    requires s[2] == 128 + u / 64 % 64 && s[3] == 128 + u % 64
    ensures EncodeUtf(s) == Code(u, 4)
  {
    Nested(u);
    assert Bits(s[0], 8) == u / 0x4_0000 && Bits(s[1], 64) == u / 0x1000 % 64;
    assert Bits(s[2], 64) == u / 64 % 64 && Bits(s[3], 64) == u % 64;
  }

  // ---------- surrogates ----------

  /** rim_get_utf_surrogate. */
  function HighSurrogate(u: int): int {
    0xD800 - 0x40 + u / 0x400
  }

  function LowSurrogate(u: int): int {
    0xDC00 + u % 0x400
  }

  /** rim_make_from_utf_surrogate. */
  function FromSurrogates(u0: int, u1: int): int {
    u0 * 0x400 + u1 + (0x10000 - 0xD800 * 0x400 - 0xDC00)
  }

  /** The pair for a number above 0xFFFF is a high and a low surrogate, and joins back to it. */
  lemma {:induction false} SurrogatesJoin(u: int)
    requires 0x10000 <= u <= 0x10FFFF
    ensures 0xD800 <= HighSurrogate(u) <= 0xDBFF && 0xDC00 <= LowSurrogate(u) <= 0xDFFF
    ensures FromSurrogates(HighSurrogate(u), LowSurrogate(u)) == u
  {
    assert u == u / 0x400 * 0x400 + u % 0x400;
  }

  // ---------- hexadecimal ----------

  /** RIM_TO_HEX. */
  function ToHex(x: int): byte
    requires 0 <= x < 16
  {
    if x <= 9 then 48 + x else 87 + x
  }

  function HexByte(x: int): Bytes
    requires 0 <= x < 256
  {
    [ToHex(x / 16), ToHex(x % 16)]
  }

  /** RIM_HEX_FROM_INT16 and RIM_HEX_FROM_INT32. */
  function Hex16(x: int): Bytes
    requires x >= 0
  {
    HexByte(x / 0x100 % 256) + HexByte(x % 256)
  }

  function Hex32(x: int): Bytes
    requires x >= 0
  {
    HexByte(x / 0x100_0000 % 256) + HexByte(x / 0x1_0000 % 256) + Hex16(x)
  }

  predicate IsHex(c: byte) {
    48 <= c <= 57 || 97 <= c <= 102 || 65 <= c <= 70
  }

  function HexDigit(c: byte): nat
    requires IsHex(c)
    ensures HexDigit(c) < 16
  {
    if c <= 57 then c - 48 else if c >= 97 then c - 87 else c - 55
  }

  datatype HexResult = Hex(value: nat) | BadHex

  /** The number n hexadecimal digits stand for, most significant first. */
  function HexNumber(s: Bytes, n: nat, acc: nat): HexResult {
    if n == 0 then Hex(acc)
    else if s == [] || !IsHex(s[0]) then BadHex
    else HexNumber(s[1..], n - 1, acc * 16 + HexDigit(s[0]))
  }

  function Power16(p: nat): nat {
    if p == 0 then 1 else 16 * Power16(p - 1)
  }

  /** rim_topower for base 16. */
  method TopowerSixteen(p: nat) returns (res: nat)
    ensures res == Power16(p)
  {
    res := 1;
    var i := 0;
    while i < p
      invariant 0 <= i <= p && res == Power16(i)
    {
      res := res * 16;
      i := i + 1;
    }
  }

  /** rim_get_hex: a sum of digits times powers, stopping at the first byte that is no digit. */
  method GetHex(val: array<byte>, at: nat, bytes: nat) returns (res: HexResult)
    requires val.Length > 0 && val[val.Length - 1] == 0 && at < val.Length
    ensures res == HexNumber(val[at..], bytes, 0)
  {
    var k, r := 0, 0;
    ghost var acc: nat := 0;
    while k < bytes
      invariant 0 <= k <= bytes && at + k < val.Length
      invariant HexNumber(val[at..], bytes, 0) == HexNumber(val[at + k..], bytes - k, acc)
      invariant r == acc * Power16(bytes - k)
    {
      var c := val[at + k];
      if !IsHex(c) { return BadHex; }
      var w := TopowerSixteen(bytes - 1 - k);
      r := r + HexDigit(c) * w;
      assert val[at + k..][1..] == val[at + k + 1..];
      ShiftSum(acc, HexDigit(c), w);
      acc := acc * 16 + HexDigit(c);
      k := k + 1;
    }
    return Hex(r);
  }

  lemma {:induction false} ShiftSum(acc: nat, d: nat, w: nat)
    ensures acc * (16 * w) + d * w == (acc * 16 + d) * w
  {
  }

  lemma {:induction false} HexOfByte(x: int)
    requires 0 <= x < 256
    ensures IsHex(HexByte(x)[0]) && IsHex(HexByte(x)[1])
    ensures HexDigit(HexByte(x)[0]) * 16 + HexDigit(HexByte(x)[1]) == x
  {
  }

  /** One printed byte read back. */
  lemma {:induction false} HexNumberByte(x: int, rest: Bytes, n: nat, acc: nat)
    requires 0 <= x < 256
    ensures HexNumber(HexByte(x) + rest, n + 2, acc) == HexNumber(rest, n, acc * 256 + x)
  {
    HexOfByte(x);
    var s := HexByte(x) + rest;
    assert s[1..][0] == HexByte(x)[1];
    assert s[1..][1..] == rest;
    assert HexNumber(s, n + 2, acc) == HexNumber(s[1..], n + 1, acc * 16 + HexDigit(s[0]));
  }

  lemma {:induction false} Hex16Back(x: int, rest: Bytes)
    requires 0 <= x < 0x1_0000
    ensures HexNumber(Hex16(x) + rest, 4, 0) == Hex(x)
  {
    var a, b := HexByte(x / 0x100 % 256), HexByte(x % 256);
    assert Hex16(x) + rest == a + (b + rest);
    HexNumberByte(x / 0x100 % 256, b + rest, 2, 0);
    HexNumberByte(x % 256, rest, 0, x / 0x100 % 256);
  }

  lemma {:induction false} Quarters(x: int)
    requires 0 <= x < 0x1_0000_0000
    ensures x / 0x100_0000 % 256 == x / 0x100_0000
    ensures x / 0x1_0000 == x / 0x100_0000 * 256 + x / 0x1_0000 % 256
    ensures x / 0x100 == x / 0x1_0000 * 256 + x / 0x100 % 256
    ensures x == x / 0x100 * 256 + x % 256
  {
  }

  lemma {:induction false} Hex32Back(x: int, rest: Bytes)
    requires 0 <= x < 0x1_0000_0000
    ensures HexNumber(Hex32(x) + rest, 8, 0) == Hex(x)
  {
    var a, b, c, d := HexByte(x / 0x100_0000 % 256), HexByte(x / 0x1_0000 % 256), HexByte(x / 0x100 % 256), HexByte(x % 256);
    assert Hex32(x) + rest == a + (b + (c + (d + rest)));
    Quarters(x);
    HexNumberByte(x / 0x100_0000 % 256, b + (c + (d + rest)), 6, 0);
    HexNumberByte(x / 0x1_0000 % 256, c + (d + rest), 4, x / 0x100_0000);
    HexNumberByte(x / 0x100 % 256, d + rest, 2, x / 0x1_0000);
    HexNumberByte(x % 256, rest, 0, x / 0x100);
  }
}
