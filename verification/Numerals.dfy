/** rim_num2str of rimrtc.c, and why numeral keys compare as the numbers they stand for. */
module Numerals {
  import opened Bytes
  import opened TreeKeys

  const MINUS: byte := 45
  const ZERO: byte := 48
  const MAX_NUM: int := 0x7FFF_FFFF_FFFF_FFFF
  /** RIM_NUMBER_LENGTH. */
  const MAX_DIGITS: nat := 70

  /** The digit characters 0-9 and a-z. */
  function DigitChar(d: nat): (c: byte)
    requires d < 36
    ensures c != 0 && c >= ZERO && (c == ZERO <==> d == 0) && DigitValue(c) == d
  {
    if d < 10 then 48 + d else 87 + d
  }

  function DigitValue(c: byte): nat {
    if 48 <= c <= 57 then c - 48 else if 97 <= c <= 122 then c - 87 else 0
  }

  lemma DigitTable(d: nat)
    requires d < 36
    ensures DigitChar(d) == "0123456789abcdefghijklmnopqrstuvwxyz"[d] as int
  {
  }

  /** The digits of a positive number, most significant first; nothing for zero. */
  function Digits(n: nat, base: nat): seq<byte>
    requires 2 <= base <= 36
  {
    if n == 0 then [] else Digits(n / base, base) + [DigitChar(n % base)]
  }

  /** The numeral of a number that is not negative. */
  function Numeral(n: nat, base: nat): seq<byte>
    requires 2 <= base <= 36
  {
    if n == 0 then [ZERO] else Digits(n, base)
  }

  /** The number a string of digits stands for. */
  function Value(s: seq<byte>, base: nat): nat {
    if s == [] then 0 else Value(s[..|s| - 1], base) * base + DigitValue(s[|s| - 1])
  }

  lemma {:induction false} DivMod(n: nat, base: nat) returns (q: nat, d: nat)
    requires 2 <= base <= 36
    ensures q == n / base && d == n % base && d < base && n == q * base + d
  {
    q, d := n / base, n % base;
  }

  lemma {:induction false} DivSmaller(a: nat, base: nat)
    requires a > 0 && base >= 2
    ensures 0 <= a / base < a
  {
  }

  lemma {:induction false} DigitsBack(n: nat, base: nat)
    requires 2 <= base <= 36
    ensures Value(Digits(n, base), base) == n
  {
    if n > 0 {
      var q, d := DivMod(n, base);
      DivSmaller(n, base);
      DigitsBack(q, base);
      var s := Digits(n, base);
      assert s[..|s| - 1] == Digits(q, base) && s[|s| - 1] == DigitChar(d);
    }
  }

  lemma {:induction false} DigitsShape(n: nat, base: nat)
    requires 2 <= base <= 36
    ensures NulFree(Digits(n, base))
    ensures forall i :: 0 <= i < |Digits(n, base)| ==> Digits(n, base)[i] >= ZERO
    ensures n > 0 ==> |Digits(n, base)| > 0 && Digits(n, base)[0] != ZERO
  {
    if n > 0 {
      var q, d := DivMod(n, base);
      DivSmaller(n, base);
      DigitsShape(q, base);
      if q == 0 { assert d == n; }
    }
  }

  /** The numeral evaluates back to the number and has no leading zero. */
  lemma {:induction false} NumeralBack(n: nat, base: nat)
    requires 2 <= base <= 36
    ensures Value(Numeral(n, base), base) == n
    ensures NulFree(Numeral(n, base)) && |Numeral(n, base)| > 0
    ensures n > 0 ==> Numeral(n, base)[0] != ZERO
  {
    DigitsBack(n, base);
    DigitsShape(n, base);
    if n == 0 {
      assert [ZERO][..0] == [];
      assert Value([ZERO], base) == Value([], base) * base + DigitValue(ZERO);
    }
  }

  lemma {:induction false} DigitsOrdered(m: nat, n: nat, base: nat)
    requires 2 <= base <= 36 && m < n
    ensures |Digits(m, base)| <= |Digits(n, base)|
    ensures |Digits(m, base)| == |Digits(n, base)| ==> LexLess(Digits(m, base), Digits(n, base))
  {
    if m > 0 {
      hide Digits, LexLess, DigitChar;
      var p, c, x := LastDigit(m, base);
      var q, d, y := LastDigit(n, base);
      QuotientsOrdered(p, c, q, d, base);
      if p < q {
        DigitsOrdered(p, q, base);
        if |x| == |y| {
          LexAppend(x, [DigitChar(c)], y, [DigitChar(d)]);
        }
      } else {
        CharsOrdered(c, d);
        LexSamePrefix(x, [DigitChar(c)], [DigitChar(d)]);
      }
    }
  }

  lemma LastDigit(n: nat, base: nat) returns (q: nat, d: nat, front: Bytes)
    requires 2 <= base <= 36 && n > 0
    ensures n == q * base + d && d < base && q < n
    ensures front == Digits(q, base) && Digits(n, base) == front + [DigitChar(d)]
  {
    q, d := DivMod(n, base);
    DivSmaller(n, base);
    front := Digits(q, base);
  }

  lemma {:induction false} QuotientsOrdered(p: nat, c: nat, q: nat, d: nat, base: nat)
    requires c < base && d < base && p * base + c < q * base + d
    ensures p < q || (p == q && c < d)
  {
    if p > q { MulOrdered(q + 1, p, base); }
  }

  lemma {:induction false} MulOrdered(x: int, y: int, k: nat)
    requires x <= y
    ensures x * k <= y * k
  {
  }

  lemma {:induction false} CharsOrdered(c: nat, d: nat)
    requires c < d < 36
    ensures LexLess([DigitChar(c)], [DigitChar(d)])
  {
  }

  lemma {:induction false} LexAppend(a: Bytes, x: Bytes, b: Bytes, y: Bytes)
    requires |a| == |b| && LexLess(a, b)
    ensures LexLess(a + x, b + y)
  {
    assert (a + x)[0] == a[0] && (b + y)[0] == b[0];
    if a[0] == b[0] {
      assert (a + x)[1..] == a[1..] + x && (b + y)[1..] == b[1..] + y;
      LexAppend(a[1..], x, b[1..], y);
    }
  }

  lemma {:induction false} LexSamePrefix(a: Bytes, x: Bytes, y: Bytes)
    requires LexLess(x, y)
    ensures LexLess(a + x, a + y)
  {
    if a == [] {
      assert a + x == x && a + y == y;
    } else {
      assert (a + x)[1..] == a[1..] + x && (a + y)[1..] == a[1..] + y;
      LexSamePrefix(a[1..], x, y);
    }
  }

  lemma {:induction false} NumeralLess(m: nat, n: nat, base: nat)
    requires 2 <= base <= 36 && m < n
    ensures NulFree(Numeral(m, base)) && NulFree(Numeral(n, base))
    ensures Less(Num, Numeral(m, base), Numeral(n, base))
  {
    NumeralBack(m, base);
    NumeralBack(n, base);
    if m > 0 {
      DigitsOrdered(m, n, base);
    } else if |Numeral(n, base)| == 1 {
      DigitsShape(n, base);
    }
  }

  /** Numeral keys compare, length first and then byte by byte, exactly as their numbers do. */
  lemma {:induction false} NumeralKeysCompareAsNumbers(m: nat, n: nat, base: nat)
    requires 2 <= base <= 36
    ensures NulFree(Numeral(m, base)) && NulFree(Numeral(n, base))
    ensures var c := Compare(Num, Numeral(m, base), Numeral(n, base));
            && (c < 0 <==> m < n) && (c == 0 <==> m == n) && (c > 0 <==> m > n)
  {
    NumeralBack(m, base);
    NumeralBack(n, base);
    CompareDecides(Num, Numeral(m, base), Numeral(n, base));
    if m < n {
      NumeralLess(m, n, base);
      LessStrict(Num, Numeral(m, base), Numeral(n, base));
    } else if n < m {
      NumeralLess(n, m, base);
      LessStrict(Num, Numeral(m, base), Numeral(n, base));
    }
  }

  // ---------- the conversion itself ----------

  /** What the digit array holds once the number has been taken apart: the last digit first. */
  function FromMods(mods: seq<int>): seq<byte>
    requires forall i :: 0 <= i < |mods| ==> 0 <= mods[i] < 36
  {
    if mods == [] then [] else [DigitChar(mods[|mods| - 1])] + FromMods(mods[..|mods| - 1])
  }

  lemma {:induction false} FromModsAt(mods: seq<int>, i: nat)
    requires forall j :: 0 <= j < |mods| ==> 0 <= mods[j] < 36
    requires i < |mods|
    ensures |FromMods(mods)| == |mods| && FromMods(mods)[|mods| - 1 - i] == DigitChar(mods[i])
  {
    if i < |mods| - 1 { FromModsAt(mods[..|mods| - 1], i); }
    else if |mods| > 1 { FromModsAt(mods[..|mods| - 1], 0); }
  }

  function Pow2(k: nat): nat {
    if k == 0 then 1 else 2 * Pow2(k - 1)
  }

  lemma {:induction false} Pow2Monotone(j: nat, k: nat)
    requires j <= k
    ensures Pow2(j) <= Pow2(k)
  {
    if j < k { Pow2Monotone(j, k - 1); }
  }

  /** rim_num2str: the digits are taken off into an array, then written back in reverse. */
  method Num2Str(al: int, base: int) returns (res: array?<byte>, resLen: nat)
    requires -MAX_NUM <= al <= MAX_NUM
    ensures 2 <= base <= 36 <==> res != null
    ensures res == null ==> resLen == 0
    ensures res != null ==>
              && res.Length == resLen + 1 && res[resLen] == 0
              && res[..resLen] == (if al < 0 then [MINUS] else []) + Numeral(if al < 0 then -al else al, base)
  {
    if base < 2 || base > 36 { return null, 0; }
    var len, a := 0, al;
    if al < 0 { a := -al; len := 1; }
    ghost var n: nat := if al < 0 then -al else al;
    var mods := new int[MAX_DIGITS];
    var k := 0;
    if al == 0 {
      len := 1;
    } else {
      k := TakeApart(a, base, mods);
      len := len + k;
    }
    res := new byte[len + 1];
    res[len] := 0;
    if al == 0 {
      res[0] := ZERO;
      return res, 1;
    }
    var wlen := len;
    if al < 0 { res[0] := MINUS; wlen := wlen - 1; }
    WriteBack(res, len, wlen, mods);
    resLen := len;
    assert res[..len] == (if al < 0 then [MINUS] else []) + Digits(n, base);
  }

  /** The second loop of rim_num2str: from the end of the string backwards. */
  method WriteBack(res: array<byte>, len: nat, wlen: nat, mods: array<int>)
    requires wlen <= len < res.Length && wlen <= mods.Length
    requires forall i :: 0 <= i < wlen ==> 0 <= mods[i] < 36
    modifies res
    ensures res[len - wlen..len] == FromMods(mods[..wlen])
    ensures forall i :: 0 <= i < res.Length && !(len - wlen <= i < len) ==> res[i] == old(res[i])
  {
    hide DigitChar, FromMods;
    ghost var m := mods[..wlen];
    var p := len - 1;
    var j := 0;
    while j < wlen
      invariant 0 <= j <= wlen && p == len - 1 - j && mods[..wlen] == m
      invariant forall i :: p < i < len ==> res[i] == DigitChar(m[len - 1 - i])
      invariant forall i :: 0 <= i < res.Length && !(len - wlen <= i < len) ==> res[i] == old(res[i])
    {
      assert mods[j] == m[j];
      res[p] := DigitChar(mods[j]);
      p := p - 1;
      j := j + 1;
    }
    ghost var o := len - wlen;
    assert |FromMods(m)| == wlen by { if wlen > 0 { FromModsAt(m, 0); } else { NoMods(m); } }
    forall i | o <= i < len ensures res[i] == FromMods(m)[i - o] {
      FromModsAt(m, len - 1 - i);
    }
  }

  lemma NoMods(mods: seq<int>)
    requires mods == []
    ensures FromMods(mods) == []
  {
  }

  /** The first loop of rim_num2str; a 64-bit number never needs more digits than the array has. */
  method TakeApart(al: int, base: int, mods: array<int>) returns (k: nat)
    requires 0 < al <= MAX_NUM && 2 <= base <= 36 && mods.Length == MAX_DIGITS
    modifies mods
    ensures k <= MAX_DIGITS
    ensures forall i :: 0 <= i < k ==> 0 <= mods[i] < base
    ensures FromMods(mods[..k]) == Digits(al, base)
  {
    var a := al;
    k := 0;
    assert mods[..0] == [];
    while a != 0
      invariant 0 <= a && k <= MAX_DIGITS && a * Pow2(k) <= al
      invariant forall i :: 0 <= i < k ==> 0 <= mods[i] < base
      invariant Digits(a, base) + FromMods(mods[..k]) == Digits(al, base)
      decreases a
    {
      StillShort(a, k, al);
      Halve(a, base, Pow2(k), al);
      ghost var before := mods[..k];
      mods[k] := a % base;
      assert mods[..k + 1] == before + [a % base];
      MoveDigit(a, base, before);
      DivSmaller(a, base);
      k := k + 1;
      a := a / base;
    }
  }

  /** The last digit of what is left goes in front of the digits taken so far. */
  lemma {:induction false} MoveDigit(a: nat, base: nat, mods: seq<int>)
    requires a > 0 && 2 <= base <= 36
    requires forall i :: 0 <= i < |mods| ==> 0 <= mods[i] < base
    ensures Digits(a, base) + FromMods(mods) == Digits(a / base, base) + FromMods(mods + [a % base])
  {
    hide Digits, FromMods, DigitChar;
    var q, d := DivMod(a, base);
    var q2, d2, front := LastDigit(a, base);
    SameQuotient(a, base, q2, d2);
    FromModsMore(mods, d);
    assert (front + [DigitChar(d)]) + FromMods(mods) == front + ([DigitChar(d)] + FromMods(mods));
  }

  lemma {:induction false} FromModsMore(mods: seq<int>, d: int)
    requires 0 <= d < 36 && forall i :: 0 <= i < |mods| ==> 0 <= mods[i] < 36
    ensures FromMods(mods + [d]) == [DigitChar(d)] + FromMods(mods)
  {
    assert (mods + [d])[..|mods|] == mods;
  }

  lemma {:induction false} SameQuotient(a: nat, base: nat, q: nat, d: nat)
    requires base >= 2 && a == q * base + d && d < base
    ensures q == a / base && d == a % base
  {
    var q1, d1 := a / base, a % base;
    assert a == q1 * base + d1;
    if q < q1 { MulOrdered(q + 1, q1, base); }
    if q1 < q { MulOrdered(q1 + 1, q, base); }
  }

  lemma {:induction false} StillShort(a: nat, k: nat, al: nat)
    requires a > 0 && a * Pow2(k) <= al <= MAX_NUM
    ensures k < 64
  {
    if k >= 64 {
      Pow2Monotone(64, k);
      Scale(a, Pow2(k));
      Pow2At64();
    }
  }

  lemma {:induction false} Pow2Eight(k: nat)
    ensures Pow2(k + 8) == 256 * Pow2(k)
  {
    assert Pow2(k + 4) == 16 * Pow2(k) by {
      assert Pow2(k + 2) == 4 * Pow2(k);
    }
    assert Pow2(k + 6) == 64 * Pow2(k);
  }

  lemma {:induction false} Pow2At64()
    ensures Pow2(64) > MAX_NUM
  {
    Pow2Eight(0); Pow2Eight(8); Pow2Eight(16); Pow2Eight(24);
    Pow2Eight(32); Pow2Eight(40); Pow2Eight(48); Pow2Eight(56);
  }

  lemma {:induction false} Scale(a: int, p: int)
    requires a >= 1 && p >= 0
    ensures a * p >= p
  {
  }

  lemma {:induction false} Halve(a: int, base: int, p: int, al: int)
    requires a >= 0 && base >= 2 && p >= 0 && a * p <= al
    ensures a / base * (2 * p) <= al
  {
    var q := a / base;
    assert q * base <= a;
    MulOrdered(2, base, q);
    MulOrdered(q * 2, a, p);
    assert q * (2 * p) == q * 2 * p;
  }
}
