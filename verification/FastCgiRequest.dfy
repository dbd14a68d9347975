/** The request that the client of rcli.c sends, as a FastCGI server reads it, sections 3.3, 3.4, 5.1 and
    5.2 of the FastCGI Specification 1.0. */
module FastCgiRequest {
  import opened Bytes
  import opened Common
  import opened FastCgiFormat
  import Numerals

  const BEG_REQ: byte := 1
  const PARAM: byte := 4
  const RESPONDER: byte := 1

  /** What the caller asks for, with the path and the query already apart. env has names and values in
      turn. */
  datatype Request = Request(reqMethod: Bytes, appPath: Bytes, pathInfo: Bytes, query: Option<Bytes>, env: seq<Bytes>,
                             input: Input)

  function Ascii(s: string): Bytes {
    seq(|s|, i requires 0 <= i < |s| => if s[i] as int < 256 then s[i] as int else 0)
  }

  /** The decimal numeral of a content length. */
  function Decimal(n: int): Bytes {
    if n < 0 then [Numerals.MINUS] + Numerals.Numeral(-n, 10) else Numerals.Numeral(n, 10)
  }

  function InPairs(env: seq<Bytes>): seq<Pair>
    requires |env| % 2 == 0
  {
    if env == [] then [] else [Pair(env[0], env[1])] + InPairs(env[2..])
  }

  /** The environment: what is always there, the query if there is one, two entries for a body, and what
      the caller adds. */
  function Params(r: Request): seq<Pair>
    requires |r.env| % 2 == 0
  {
    [Pair(Ascii("REQUEST_METHOD"), r.reqMethod), Pair(Ascii("SCRIPT_NAME"), r.appPath), Pair(Ascii("PATH_INFO"), r.pathInfo)]
    + (if r.query.Some? && r.query.value != [] then [Pair(Ascii("QUERY_STRING"), r.query.value)] else [])
    + (if HasBody(r.input)
       then [Pair(Ascii("CONTENT_LENGTH"), Decimal(r.input.contentLen)), Pair(Ascii("CONTENT_TYPE"), r.input.contentType.value)]
       else [])
    + InPairs(r.env)
  }

  /** Lengths that the source keeps in an int, and a body as long as its length says. */
  ghost predicate Sendable(r: Request) {
    LongEnough(r.input) && (|r.env| % 2 == 0 ==> forall i :: 0 <= i < |Params(r)| ==> Sized(Params(r)[i]))
  }

  /** The environment fits a record. */
  predicate ParamsFit(r: Request)
    requires |r.env| % 2 == 0
  {
    PairsSize(Params(r)) < MAX_LEN - HEADER
  }

  /** The connection is not kept open. */
  function Begin(): Record {
    Record(BEG_REQ, [0, RESPONDER, 0, 0, 0, 0, 0, 0], [])
  }

  function Requested(r: Request): seq<Record>
    requires Sendable(r) && |r.env| % 2 == 0
  {
    [Begin(), Record(PARAM, EncodePairs(Params(r)), []), Record(PARAM, [], [])] + InputRecords(r.input)
  }

  lemma RequestedFits(r: Request)
    requires Sendable(r) && |r.env| % 2 == 0 && ParamsFit(r)
    ensures forall i :: 0 <= i < |Requested(r)| ==> Fits(Requested(r)[i])
  {
    hide EncodePairs, InputRecords, Params;
    InputFits(r.input);
    PairsSizeIsLength(Params(r));
    var rs := Requested(r);
    assert forall i :: 3 <= i < |rs| ==> rs[i] == InputRecords(r.input)[i - 3];
  }

  /** What a server decodes: the begin record of a responder whose connection is closed at the end, the
      environment in one record and the empty one that ends it, and the input. */
  lemma {:induction false} RequestIsDelivered(r: Request)
    requires Sendable(r) && |r.env| % 2 == 0 && ParamsFit(r)
    ensures forall i :: 0 <= i < |Requested(r)| ==> Fits(Requested(r)[i])
    ensures DecodeAll(EncodeAll(Requested(r))) == Some(Requested(r))
    ensures var rs := Requested(r);
      && |rs| >= 3 && rs[0] == Record(1, [0, 1, 0, 0, 0, 0, 0, 0], [])
      && rs[1].kind == 4 && rs[1].content != [] && DecodePairs(rs[1].content) == Some(Params(r))
      && rs[2] == Record(4, [], []) && rs[3..] == InputRecords(r.input)
  {
    RequestedFits(r);
    hide EncodePairs, InputRecords, Params, EncodeAll, DecodeAll, DecodePairs, PairsSize;
    RecordsBack(Requested(r));
    PairsBack(Params(r));
    PairsSizeIsLength(Params(r));
    ParamsNotEmpty(r);
  }

  lemma ParamsNotEmpty(r: Request)
    requires |r.env| % 2 == 0
    ensures PairsSize(Params(r)) > 0
  {
    hide InPairs;
    var ps := Params(r);
    assert |ps| > 0;
  }

  /** A server is told the length of a body exactly if it gets one, and then the number it is told is the
      number of bytes that it gets; a negative one is told with its sign, and gets none. */
  lemma {:induction false} ToldLengthIsSent(r: Request)
    requires Sendable(r) && |r.env| % 2 == 0
    ensures HasBody(r.input) <==> InputRecords(r.input) != []
    ensures HasBody(r.input) ==>
      var told, sent, n := Decimal(r.input.contentLen), Concat(Contents(InputRecords(r.input))), r.input.contentLen;
      && Pair(Ascii("CONTENT_LENGTH"), told) in Params(r)
      && sent <= r.input.reqBody.value
      && (n >= 0 ==> Numerals.Value(told, 10) == n == |sent|)
      && (n < 0 ==> told[0] == 45 && Numerals.Value(told[1..], 10) == -n && sent == [])
  {
    if HasBody(r.input) {
      hide DecodeAll, EncodeAll, EncodePairs;
      InputEndsIffBody(r.input);
      var n := r.input.contentLen;
      Numerals.NumeralBack(if n < 0 then -n else n, 10);
      ToldInParams(r);
    }
  }

  lemma ToldInParams(r: Request)
    requires |r.env| % 2 == 0 && HasBody(r.input)
    ensures Pair(Ascii("CONTENT_LENGTH"), Decimal(r.input.contentLen)) in Params(r)
  {
    hide InPairs, Decimal, Ascii;
  }

  /** The caller's names and values follow in their order. */
  lemma {:induction false} PairsOfCaller(env: seq<Bytes>, i: nat)
    requires |env| % 2 == 0 && i < |env| / 2
    ensures |InPairs(env)| == |env| / 2 && InPairs(env)[i] == Pair(env[2 * i], env[2 * i + 1])
  {
    if |env| > 2 { PairsOfCaller(env[2..], if i > 0 then i - 1 else 0); }
    if i > 0 { assert env[2..][2 * (i - 1)] == env[2 * i]; }
  }

  /** The whole environment of a request with a query, a body and one entry of the caller, and of one with
      nothing beyond what is always there. */
  lemma ParamsInFull(r: Request, q: Bytes, n: Bytes, v: Bytes)
    ensures r.query == Some(q) && q != [] && HasBody(r.input) && r.env == [n, v] ==>
      Params(r) == [Pair(Ascii("REQUEST_METHOD"), r.reqMethod), Pair(Ascii("SCRIPT_NAME"), r.appPath),
                    Pair(Ascii("PATH_INFO"), r.pathInfo), Pair(Ascii("QUERY_STRING"), q),
                    Pair(Ascii("CONTENT_LENGTH"), Decimal(r.input.contentLen)),
                    Pair(Ascii("CONTENT_TYPE"), r.input.contentType.value), Pair(n, v)]
    ensures (r.query.None? || r.query == Some([])) && !HasBody(r.input) && r.env == [] ==>
      Params(r) == [Pair(Ascii("REQUEST_METHOD"), r.reqMethod), Pair(Ascii("SCRIPT_NAME"), r.appPath),
                    Pair(Ascii("PATH_INFO"), r.pathInfo)]
  {
    hide Ascii, Decimal, HasBody;
    assert [n, v][2..] == [];
    assert InPairs([n, v]) == [Pair(n, v)] + InPairs([]) == [Pair(n, v)];
  }
}
