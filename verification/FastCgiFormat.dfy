/** The records and name-value pairs of the FastCGI Specification 1.0, sections 3.3 and 3.4, as the
    client of rcli.c sends and reads them. */
module FastCgiFormat {
  import opened Bytes
  import opened Common

  const VER_1: byte := 1
  const END_REQ: byte := 3
  const STDIN: byte := 5
  const STDOUT: byte := 6
  const STDERR: byte := 7
  const UNK_TYPE: byte := 11
  const REQ_DONE: byte := 0
  const REQ_ID := 1
  const MAX_LEN := 0xFFFF
  const HEADER := 8

  // ---------- records ----------

  /** A record of the one request, section 3.3. */
  datatype Record = Record(kind: byte, content: Bytes, padding: Bytes)

  ghost predicate Fits(r: Record) {
    |r.content| <= MAX_LEN && |r.padding| < 256
  }

  /** build_hdr, with a padding. */
  function Header(kind: byte, len: nat, pad: nat): (h: Bytes)
    requires len <= MAX_LEN && pad < 256
    ensures |h| == HEADER
  {
    [VER_1, kind, 0, REQ_ID, len / 256, len % 256, pad, 0]
  }

  function Encode(r: Record): Bytes
    requires Fits(r)
  {
    Header(r.kind, |r.content|, |r.padding|) + r.content + r.padding
  }

  function EncodeAll(rs: seq<Record>): Bytes
    requires forall i :: 0 <= i < |rs| ==> Fits(rs[i])
  {
    if rs == [] then [] else Encode(rs[0]) + EncodeAll(rs[1..])
  }

  // ---------- name-value pairs ----------

  datatype Pair = Pair(name: Bytes, value: Bytes)

  /** A length takes one byte below 128, and four with the top bit set otherwise. */
  function EncodeLen(n: nat): (s: Bytes)
    requires n < 0x8000_0000
    ensures |s| == LenSize(n)
  {
    if n < 0x80 then [n] else [0x80 + n / 0x100_0000, n / 0x1_0000 % 256, n / 0x100 % 256, n % 256]
  }

  function LenSize(n: nat): nat {
    if n < 0x80 then 1 else 4
  }

  ghost predicate Sized(p: Pair) {
    |p.name| < 0x8000_0000 && |p.value| < 0x8000_0000
  }

  function EncodePair(p: Pair): Bytes
    requires Sized(p)
  {
    EncodeLen(|p.name|) + EncodeLen(|p.value|) + p.name + p.value
  }

  function EncodePairs(ps: seq<Pair>): Bytes
    requires forall i :: 0 <= i < |ps| ==> Sized(ps[i])
  {
    if ps == [] then [] else EncodePairs(ps[..|ps| - 1]) + EncodePair(ps[|ps| - 1])
  }

  /** What rim_size_env adds for one pair. */
  function PairSize(p: Pair): nat {
    LenSize(|p.name|) + LenSize(|p.value|) + |p.name| + |p.value|
  }

  function PairsSize(ps: seq<Pair>): nat {
    if ps == [] then 0 else PairsSize(ps[..|ps| - 1]) + PairSize(ps[|ps| - 1])
  }

  lemma {:induction false} PairsSizeIsLength(ps: seq<Pair>)
    requires forall i :: 0 <= i < |ps| ==> Sized(ps[i])
    ensures |EncodePairs(ps)| == PairsSize(ps)
  {
    if ps != [] { PairsSizeIsLength(ps[..|ps| - 1]); }
  }

  // ---------- decoding by section 3.4 ----------

  /** A length and how many bytes it takes; nothing when they are not there. */
  function DecodeLen(s: Bytes): (r: Option<(nat, nat)>)
    ensures r.Some? ==> 1 <= r.value.1 <= |s|
  {
    if s == [] then None
    else if s[0] < 0x80 then Some((s[0] as int, 1))
    else if |s| < 4 then None
    else Some(((s[0] as int % 0x80) * 0x100_0000 + s[1] as int * 0x1_0000 + s[2] as int * 0x100 + s[3] as int, 4))
  }

  /** One pair and the rest of the stream. */
  function DecodePair(s: Bytes): (r: Option<(Pair, Bytes)>)
    ensures r.Some? ==> |r.value.1| < |s|
  {
    match DecodeLen(s)
    case None => None
    case Some((n, a)) =>
      match DecodeLen(s[a..])
      case None => None
      case Some((v, b)) =>
        var rest := s[a + b..];
        if |rest| < n + v then None
        else Some((Pair(rest[..n], rest[n..n + v]), rest[n + v..]))
  }

  function DecodePairs(s: Bytes): Option<seq<Pair>>
    decreases |s|
  {
    if s == [] then Some([])
    else
      match DecodePair(s)
      case None => None
      case Some((p, rest)) =>
        match DecodePairs(rest)
        case None => None
        case Some(ps) => Some([p] + ps)
  }

  lemma {:induction false} LenBack(n: nat, rest: Bytes)
    requires n < 0x8000_0000
    ensures DecodeLen(EncodeLen(n) + rest) == Some((n, LenSize(n)))
  {
    var s := EncodeLen(n) + rest;
    if n >= 0x80 {
      assert s[0] == 0x80 + n / 0x100_0000 && s[1] == n / 0x1_0000 % 256 && s[2] == n / 0x100 % 256 && s[3] == n % 256;
      Digits256(n);
    }
  }

  lemma Digits256(n: nat)
    requires n < 0x8000_0000
    ensures n / 0x1_0000 == n / 0x100_0000 * 256 + n / 0x1_0000 % 256
    ensures n / 0x100 == n / 0x1_0000 * 256 + n / 0x100 % 256
    ensures n == n / 0x100 * 256 + n % 256
  {
  }

  lemma {:induction false} PairBack(p: Pair, rest: Bytes)
    requires Sized(p)
    ensures DecodePair(EncodePair(p) + rest) == Some((p, rest))
  {
    hide DecodeLen, EncodeLen;
    var a, b := EncodeLen(|p.name|), EncodeLen(|p.value|);
    var behind := p.name + (p.value + rest);
    var s := EncodePair(p) + rest;
    assert s == a + (b + behind);
    LenBack(|p.name|, b + behind);
    assert s[|a|..] == b + behind;
    LenBack(|p.value|, behind);
    assert s[|a| + |b|..] == behind;
    CutPair(p.name, p.value, rest);
  }

  lemma CutPair(name: Bytes, value: Bytes, rest: Bytes)
    ensures var s := name + (value + rest);
      s[..|name|] == name && s[|name|..|name| + |value|] == value && s[|name| + |value|..] == rest
  {
  }

  lemma {:induction false} PairsFirst(ps: seq<Pair>)
    requires ps != [] && forall i :: 0 <= i < |ps| ==> Sized(ps[i])
    ensures EncodePairs(ps) == EncodePair(ps[0]) + EncodePairs(ps[1..])
  {
    hide EncodePair;
    var front, last := ps[..|ps| - 1], ps[|ps| - 1];
    if |ps| == 1 {
      assert front == [] && ps[1..] == [];
      assert EncodePairs(ps) == [] + EncodePair(last) == EncodePair(last) + [];
    } else {
      PairsFirst(front);
      assert ps[1..][..|ps| - 2] == front[1..];
      var a, b, c := EncodePair(front[0]), EncodePairs(front[1..]), EncodePair(last);
      assert (a + b) + c == a + (b + c);
    }
  }

  /** Decoding what was encoded gives the names and values back, in order. */
  lemma {:induction false} PairsBack(ps: seq<Pair>)
    requires forall i :: 0 <= i < |ps| ==> Sized(ps[i])
    ensures DecodePairs(EncodePairs(ps)) == Some(ps)
  {
    if ps != [] {
      hide DecodePair, EncodePair;
      PairsBack(ps[1..]);
      PairsFirst(ps);
      PairBack(ps[0], EncodePairs(ps[1..]));
      EncodedNotEmpty(ps[0], EncodePairs(ps[1..]));
      assert [ps[0]] + ps[1..] == ps;
    }
  }

  lemma EncodedNotEmpty(p: Pair, rest: Bytes)
    requires Sized(p)
    ensures EncodePair(p) + rest != []
  {
  }

  /** A header and lengths byte by byte, sections 3.3 and 3.4: a record of type 5 with 258 bytes of content
      and 3 of padding; the last length of one byte, the first of four and one with four different bytes. */
  lemma HeaderInBytes()
    ensures Header(5, 258, 3) == [1, 5, 0, 1, 1, 2, 3, 0]
    ensures EncodeLen(127) == [127] && EncodeLen(128) == [128, 0, 0, 128]
    ensures EncodeLen(0x0102_0304) == [0x81, 2, 3, 4]
    ensures EncodePair(Pair([97], [98, 99])) == [1, 2, 97, 98, 99]
  {
    assert EncodePair(Pair([97], [98, 99])) == [1] + [2] + [97] + [98, 99];
  }

  // ---------- the request body ----------

  /** The contents of the body records: full ones and what is left over. */
  function Chunks(body: Bytes): seq<Bytes>
    decreases |body|
  {
    if body == [] then []
    else if |body| > MAX_LEN - HEADER then [body[..MAX_LEN - HEADER]] + Chunks(body[MAX_LEN - HEADER..])
    else [body]
  }

  function Concat(cs: seq<Bytes>): Bytes {
    if cs == [] then [] else cs[0] + Concat(cs[1..])
  }

  /** The chunks fit a record each, all but the last are of 65527 bytes, none is empty, and together
      they are the body. */
  lemma {:induction false} ChunksOfBody(body: Bytes)
    ensures forall i :: 0 <= i < |Chunks(body)| ==> 0 < |Chunks(body)[i]| <= MAX_LEN - HEADER
    ensures forall i :: 0 <= i < |Chunks(body)| - 1 ==> |Chunks(body)[i]| == 65527
    ensures Concat(Chunks(body)) == body
    decreases |body|
  {
    if |body| > MAX_LEN - HEADER {
      var first, rest := body[..MAX_LEN - HEADER], body[MAX_LEN - HEADER..];
      ChunksOfBody(rest);
      var cs := Chunks(body);
      assert cs == [first] + Chunks(rest) && cs[1..] == Chunks(rest);
      assert forall i :: 0 < i < |cs| ==> cs[i] == Chunks(rest)[i - 1];
      assert first + rest == body;
    } else if body != [] {
      assert Chunks(body) == [body] && Chunks(body)[1..] == [];
      assert Concat([]) == [];
      assert Concat([body]) == body + Concat([body][1..]);
    }
  }

  /** The body records and the empty one that ends the stream. */
  function BodyRecords(cs: seq<Bytes>): (rs: seq<Record>)
    ensures |rs| == |cs| + 1
    ensures forall i :: 0 <= i < |cs| ==> rs[i] == Record(STDIN, cs[i], [])
    ensures rs[|cs|] == Record(STDIN, [], [])
  {
    if cs == [] then [Record(STDIN, [], [])] else [Record(STDIN, cs[0], [])] + BodyRecords(cs[1..])
  }

  /** What the stream that a server reads says the records are, section 3.3. */
  function DecodeAll(s: Bytes): Option<seq<Record>>
    decreases |s|
  {
    if s == [] then Some([])
    else
      match DecodeRecord(s)
      case None => None
      case Some((r, rest)) =>
        match DecodeAll(rest)
        case None => None
        case Some(rs) => Some([r] + rs)
  }

  function DecodeRecord(s: Bytes): (r: Option<(Record, Bytes)>)
    ensures r.Some? ==> |r.value.1| < |s|
  {
    if |s| < HEADER || s[0] != VER_1 || s[2] != 0 || s[3] != REQ_ID then None
    else
      var n, pad := s[4] as int * 256 + s[5] as int, s[6] as int;
      var rest := s[HEADER..];
      if |rest| < n + pad then None
      else Some((Record(s[1], rest[..n], rest[n..n + pad]), rest[n + pad..]))
  }

  lemma {:induction false} RecordBack(r: Record, rest: Bytes)
    requires Fits(r)
    ensures DecodeRecord(Encode(r) + rest) == Some((r, rest))
  {
    var h := Header(r.kind, |r.content|, |r.padding|);
    var s, behind := Encode(r) + rest, r.content + r.padding + rest;
    assert s == h + behind;
    assert forall i :: 0 <= i < HEADER ==> s[i] == h[i];
    var n, pad := |r.content|, |r.padding|;
    assert n / 256 * 256 + n % 256 == n;
    assert s[HEADER..] == behind;
    assert behind[..n] == r.content && behind[n..n + pad] == r.padding && behind[n + pad..] == rest;
  }

  lemma {:induction false} RecordsBack(rs: seq<Record>)
    requires forall i :: 0 <= i < |rs| ==> Fits(rs[i])
    ensures DecodeAll(EncodeAll(rs)) == Some(rs)
  {
    if rs != [] {
      hide DecodeRecord;
      RecordsBack(rs[1..]);
      RecordBack(rs[0], EncodeAll(rs[1..]));
      assert |Encode(rs[0])| >= HEADER;
      assert [rs[0]] + rs[1..] == rs;
    }
  }

  /** A server that decodes the body stream gets records of which each fits a 16-bit length, the
      contents together are the body, and the last one, and only it, is empty. */
  lemma {:induction false} BodyIsDelivered(body: Bytes)
    ensures var cs := Chunks(body);
      && (forall i :: 0 <= i < |BodyRecords(cs)| ==> Fits(BodyRecords(cs)[i]))
      && DecodeAll(EncodeAll(BodyRecords(cs))) == Some(BodyRecords(cs))
      && Concat(cs) == body && forall i :: 0 <= i < |cs| ==> BodyRecords(cs)[i].content == cs[i] != []
  {
    ChunksOfBody(body);
    var rs := BodyRecords(Chunks(body));
    forall i | 0 <= i < |rs| ensures Fits(rs[i]) {
      if i < |Chunks(body)| { assert |Chunks(body)[i]| <= MAX_LEN - HEADER; }
    }
    RecordsBack(rs);
  }

  // ---------- with a body and without ----------

  /** The request's body, its length and its content type. */
  datatype Input = Input(reqBody: Option<Bytes>, contentLen: int, contentType: Option<Bytes>)

  /** There is a body only with a pointer to it, a length other than zero and a content type that is
      not empty. */
  predicate HasBody(r: Input) {
    r.reqBody.Some? && r.contentLen != 0 && r.contentType.Some? && r.contentType.value != []
  }

  /** A request that has a body has as many bytes of it as its length says. */
  predicate LongEnough(r: Input) {
    HasBody(r) ==> r.contentLen <= |r.reqBody.value|
  }

  /** The bytes that are sent of it; a negative length sends none. */
  function BodyOf(r: Input): Bytes
    requires HasBody(r) && LongEnough(r)
  {
    r.reqBody.value[..Max(0, r.contentLen)]
  }

  /** The input records of a request. */
  function InputRecords(r: Input): seq<Record>
    requires LongEnough(r)
  {
    if HasBody(r) then BodyRecords(Chunks(BodyOf(r))) else []
  }

  lemma {:induction false} InputFits(r: Input)
    requires LongEnough(r)
    ensures forall i :: 0 <= i < |InputRecords(r)| ==> Fits(InputRecords(r)[i])
  {
    if HasBody(r) { BodyIsDelivered(BodyOf(r)); }
  }

  /** A stream that a server reads as input and that is ended by an empty record. */
  ghost predicate EndsInput(s: Bytes) {
    match DecodeAll(s)
    case None => false
    case Some(rs) => rs != [] && rs[|rs| - 1] == Record(STDIN, [], [])
  }

  /** The input stream of a request gets the empty record that ends it if and only if the request has
      a body; then its contents are the body. */
  lemma {:induction false} InputEndsIffBody(r: Input)
    requires LongEnough(r)
    ensures (forall i :: 0 <= i < |InputRecords(r)| ==> Fits(InputRecords(r)[i]))
    ensures EndsInput(EncodeAll(InputRecords(r))) <==>
              r.reqBody.Some? && r.contentLen != 0 && r.contentType.Some? && |r.contentType.value| > 0
    ensures DecodeAll(EncodeAll(InputRecords(r))) == Some(InputRecords(r))
    ensures HasBody(r) ==> Concat(Contents(InputRecords(r))) == BodyOf(r)
  {
    InputFits(r);
    RecordsBack(InputRecords(r));
    if HasBody(r) {
      ChunksOfBody(BodyOf(r));
      ContentsOfBody(Chunks(BodyOf(r)));
    }
  }

  function Contents(rs: seq<Record>): seq<Bytes> {
    if rs == [] then [] else [rs[0].content] + Contents(rs[1..])
  }

  lemma {:induction false} ContentsOfBody(cs: seq<Bytes>)
    ensures Concat(Contents(BodyRecords(cs))) == Concat(cs)
  {
    var rs := BodyRecords(cs);
    if cs == [] {
      assert rs[1..] == [];
      assert Contents(rs) == [[]] + [] == [[]];
      assert Concat([[]]) == [] + Concat([]);
    } else {
      ContentsOfBody(cs[1..]);
      assert rs[1..] == BodyRecords(cs[1..]);
      var more := Contents(rs[1..]);
      assert ([cs[0]] + more)[1..] == more;
    }
  }

  /** A request without a body leaves the stream empty and not ended. */
  lemma NoBodyNoEnd()
    ensures var r := Input(None, 0, None);
      LongEnough(r) && EncodeAll(InputRecords(r)) == [] && !EndsInput([])
  {
  }
}
