/** What the reply of a FastCGI server means to the client of rcli.c, record by record, sections 3.3,
    5.3 and 5.5 of the FastCGI Specification 1.0. */
module FastCgiReply {
  import opened Bytes
  import opened FastCgiFormat

  datatype ReadStatus = Okay | SockRead | ProtErr | BadVer | SrvErr | UnkType

  /** What has been put into the three buffers. */
  datatype Streams = Streams(data: Bytes, error: Bytes, other: Bytes)

  datatype Reply = Reply(got: Streams, status: ReadStatus, app: int)

  function Add(g: Streams, kind: byte, c: Bytes): Streams {
    if kind == STDOUT then g.(data := g.data + c)
    else if kind == STDERR then g.(error := g.error + c)
    else g.(other := g.other + c)
  }

  /** The application status of an end record, as a 32-bit signed number. */
  function AppStatus(c: Bytes): int
    requires |c| >= 4
  {
    ToInt32(c[0] as int * 0x100_0000 + c[1] as int * 0x1_0000 + c[2] as int * 0x100 + c[3] as int)
  }

  /** fc_server_read on the bytes s still to come, with g already put. */
  function ReadReply(s: Bytes, g: Streams): Reply
    decreases |s|, 1
  {
    if |s| < HEADER then Reply(g, ProtErr, 0)
    else if s[0] != VER_1 then Reply(g, BadVer, 0)
    else if s[3] as int + s[2] as int * 256 != REQ_ID then Reply(g, ProtErr, 0)
    else ReadBody(s[1], s[5] as int + s[4] as int * 256, s[6], s[HEADER..], g)
  }

  /** The same behind a header. */
  function ReadBody(kind: byte, n: nat, pad: nat, s: Bytes, g: Streams): Reply
    decreases |s|, 2
  {
    if |s| < n then Reply(g, ProtErr, 0)
    else if kind == END_REQ && n > 0 then ReadEnd(n, pad, s, g)
    else
      var g' := if n > 0 then Add(g, kind, s[..n]) else g;
      if kind == UNK_TYPE then Reply(g', UnkType, 0)
      else if |s| - n < pad then Reply(g', ProtErr, 0)
      else ReadReply(s[n + pad..], g')
  }

  function ReadEnd(n: nat, pad: nat, s: Bytes, g: Streams): Reply
    requires 0 < n <= |s|
  {
    if n != 8 then Reply(g, ProtErr, 0)
    else if s[4] != REQ_DONE then Reply(g, SrvErr, 0)
    else Reply(g, if |s| - n < pad then ProtErr else Okay, AppStatus(s))
  }

  // ---------- the reply of a server that keeps to the protocol ----------

  /** The contents of the records that go to one buffer, in order. */
  function Of(rs: seq<Record>, which: byte -> bool): Bytes {
    if rs == [] then [] else (if which(rs[0].kind) then rs[0].content else []) + Of(rs[1..], which)
  }

  function Collected(rs: seq<Record>): Streams {
    Streams(Of(rs, k => k == STDOUT), Of(rs, k => k == STDERR), Of(rs, k => k != STDOUT && k != STDERR))
  }

  function Joined(g: Streams, h: Streams): Streams {
    Streams(g.data + h.data, g.error + h.error, g.other + h.other)
  }

  /** Any records but an end, or an unknown type. */
  ghost predicate Streaming(rs: seq<Record>) {
    forall i :: 0 <= i < |rs| ==> Fits(rs[i]) && rs[i].kind != END_REQ && rs[i].kind != UNK_TYPE
  }

  /** A finished request. */
  ghost predicate Finishes(r: Record) {
    Fits(r) && r.kind == END_REQ && |r.content| == 8 && r.content[4] == REQ_DONE
  }

  lemma {:induction false} RecordIsRead(r: Record, rest: Bytes, g: Streams)
    requires Fits(r)
    ensures ReadReply(Encode(r) + rest, g) == ReadBody(r.kind, |r.content|, |r.padding|, r.content + (r.padding + rest), g)
  {
    hide ReadBody;
    var h := Header(r.kind, |r.content|, |r.padding|);
    var s, behind := Encode(r) + rest, r.content + (r.padding + rest);
    assert s == h + behind;
    assert forall i :: 0 <= i < HEADER ==> s[i] == h[i];
    assert |r.content| / 256 * 256 + |r.content| % 256 == |r.content|;
    assert s[HEADER..] == behind;
  }

  lemma {:induction false} StreamingIsAdded(r: Record, rest: Bytes, g: Streams)
    requires Fits(r) && r.kind != END_REQ && r.kind != UNK_TYPE
    ensures ReadReply(Encode(r) + rest, g) == ReadReply(rest, Add(g, r.kind, r.content))
  {
    hide ReadReply;
    RecordIsRead(r, rest, g);
    var n, pad := |r.content|, |r.padding|;
    var s := r.content + (r.padding + rest);
    assert s[..n] == r.content && s[n + pad..] == rest;
    if n == 0 { AddNothing(g, r.kind, r.content); }
  }

  lemma AddNothing(g: Streams, kind: byte, c: Bytes)
    requires c == []
    ensures Add(g, kind, c) == g
  {
    assert g.data + c == g.data && g.error + c == g.error && g.other + c == g.other;
  }

  lemma {:induction false} EndFinishes(r: Record, rest: Bytes, g: Streams)
    requires Finishes(r)
    ensures ReadReply(Encode(r) + rest, g) == Reply(g, Okay, AppStatus(r.content))
  {
    hide ReadReply;
    RecordIsRead(r, rest, g);
    var s := r.content + (r.padding + rest);
    assert forall i :: 0 <= i < 8 ==> s[i] == r.content[i];
  }

  lemma JoinedAdd(g: Streams, r: Record, rs: seq<Record>)
    requires rs != [] && r == rs[0]
    ensures Joined(Add(g, r.kind, r.content), Collected(rs[1..])) == Joined(g, Collected(rs))
  {
    var h := Collected(rs[1..]);
    var c := r.content;
    if r.kind == STDOUT {
      assert (g.data + c) + h.data == g.data + (c + h.data);
    } else if r.kind == STDERR {
      assert (g.error + c) + h.error == g.error + (c + h.error);
    } else {
      assert (g.other + c) + h.other == g.other + (c + h.other);
    }
    assert [] + h.data == h.data && [] + h.error == h.error && [] + h.other == h.other;
  }

  /** Any interleaving of output, error and other records, with any paddings and empty records, puts
      exactly the contents of the records into their buffers, in order. */
  lemma {:induction false} StreamsAreCollected(rs: seq<Record>, tail: Bytes, g: Streams)
    requires Streaming(rs)
    ensures ReadReply(EncodeAll(rs) + tail, g) == ReadReply(tail, Joined(g, Collected(rs)))
  {
    hide ReadReply, Encode;
    if rs == [] {
      assert EncodeAll(rs) + tail == tail;
      assert g.data + [] == g.data && g.error + [] == g.error && g.other + [] == g.other;
    } else {
      var r := rs[0];
      var g' := Add(g, r.kind, r.content);
      var behind := EncodeAll(rs[1..]) + tail;
      assert EncodeAll(rs) + tail == Encode(r) + behind;
      StreamingIsAdded(r, behind, g);
      StreamsAreCollected(rs[1..], tail, g');
      JoinedAdd(g, r, rs);
    }
  }

  /** Closed by an end record, that is the whole reply, whatever follows. */
  lemma {:induction false} ReplyIsDemultiplexed(rs: seq<Record>, end: Record, rest: Bytes, g: Streams)
    requires Streaming(rs) && Finishes(end)
    ensures ReadReply(EncodeAll(rs) + (Encode(end) + rest), g) == Reply(Joined(g, Collected(rs)), Okay, AppStatus(end.content))
  {
    hide ReadReply, Encode, EncodeAll, Collected, AppStatus;
    StreamsAreCollected(rs, Encode(end) + rest, g);
    EndFinishes(end, rest, Joined(g, Collected(rs)));
  }

  // ---------- the application status ----------

  /** The four bytes of an application status, section 5.5: two's complement, the most significant byte
      first. */
  function StatusBytes(a: int): (s: Bytes)
    requires -0x8000_0000 <= a < 0x8000_0000
    ensures |s| == 4
  {
    var n := if a < 0 then a + 0x1_0000_0000 else a;
    [n / 0x100_0000, n / 0x1_0000 % 256, n / 0x100 % 256, n % 256]
  }

  lemma Digits256(n: nat)
    requires n < 0x1_0000_0000
    ensures n / 0x1_0000 == n / 0x100_0000 * 256 + n / 0x1_0000 % 256
    ensures n / 0x100 == n / 0x1_0000 * 256 + n / 0x100 % 256
    ensures n == n / 0x100 * 256 + n % 256
  {
  }

  lemma {:induction false} StatusBack(a: int, c: Bytes)
    requires -0x8000_0000 <= a < 0x8000_0000 && |c| >= 4
    requires forall i :: 0 <= i < 4 ==> c[i] == StatusBytes(a)[i]
    ensures AppStatus(c) == a
  {
    var n := if a < 0 then a + 0x1_0000_0000 else a;
    Digits256(n);
    assert c[0] == n / 0x100_0000 && c[1] == n / 0x1_0000 % 256 && c[2] == n / 0x100 % 256 && c[3] == n % 256;
  }

  /** The client gets the application status that the server wrote, every signed 32-bit number. */
  lemma {:induction false} StatusIsDelivered(rs: seq<Record>, end: Record, rest: Bytes, g: Streams, a: int)
    requires Streaming(rs) && Finishes(end) && -0x8000_0000 <= a < 0x8000_0000
    requires forall i :: 0 <= i < 4 ==> end.content[i] == StatusBytes(a)[i]
    ensures ReadReply(EncodeAll(rs) + (Encode(end) + rest), g) == Reply(Joined(g, Collected(rs)), Okay, a)
  {
    hide ReadReply, Encode, EncodeAll, Collected, StatusBytes, AppStatus;
    ReplyIsDemultiplexed(rs, end, rest, g);
    StatusBack(a, end.content);
  }

  // ---------- replies that are refused ----------

  /** Behind any records, a header that is cut, of another version or of another request ends the reply
      with its error. */
  lemma {:induction false} BadHeaderIsRefused(rs: seq<Record>, tail: Bytes, g: Streams)
    requires Streaming(rs)
    ensures var r := ReadReply(EncodeAll(rs) + tail, g);
      && (|tail| < 8 ==> r == Reply(Joined(g, Collected(rs)), ProtErr, 0))
      && (|tail| >= 8 && tail[0] != 1 ==> r == Reply(Joined(g, Collected(rs)), BadVer, 0))
      && (|tail| >= 8 && tail[0] == 1 && (tail[2], tail[3]) != (0, 1) ==> r == Reply(Joined(g, Collected(rs)), ProtErr, 0))
  {
    hide EncodeAll, Collected, ReadBody;
    StreamsAreCollected(rs, tail, g);
  }

  /** So does an end record of another length, one that says the request was not done, and a record that
      tells of an unknown type. */
  lemma {:induction false} BadRecordIsRefused(rs: seq<Record>, r: Record, rest: Bytes, g: Streams)
    requires Streaming(rs) && Fits(r)
    ensures var h, reply := Joined(g, Collected(rs)), ReadReply(EncodeAll(rs) + (Encode(r) + rest), g);
      && (r.kind == 3 && 0 < |r.content| != 8 ==> reply == Reply(h, ProtErr, 0))
      && (r.kind == 3 && |r.content| == 8 && r.content[4] != 0 ==> reply == Reply(h, SrvErr, 0))
      && (r.kind == 11 ==> reply.status == UnkType && reply.got == h.(other := h.other + r.content))
  {
    hide EncodeAll, Collected, ReadReply, Encode;
    var h := Joined(g, Collected(rs));
    StreamsAreCollected(rs, Encode(r) + rest, g);
    RecordIsRead(r, rest, h);
    var s := r.content + (r.padding + rest);
    assert |r.content| == 8 ==> s[4] == r.content[4];
    assert s[..|r.content|] == r.content;
    assert h.other + [] == h.other;
  }

  /** A reply that ends within a record, the closing one included, is a protocol error. */
  lemma {:induction false} CutReplyIsRefused(rs: seq<Record>, r: Record, k: nat, g: Streams)
    requires Streaming(rs) && Fits(r) && (Finishes(r) || Streaming([r])) && k < |Encode(r)|
    ensures ReadReply(EncodeAll(rs) + Encode(r)[..k], g).status == ProtErr
  {
    hide EncodeAll, Collected;
    var s, g' := Encode(r)[..k], Joined(g, Collected(rs));
    StreamsAreCollected(rs, s, g);
    assert Streaming([r]) ==> [r][0].kind != END_REQ && [r][0].kind != UNK_TYPE;
    if k >= HEADER {
      CutRecordIsRead(r, k, g');
      var behind := s[HEADER..];
      if |behind| >= |r.content| && Finishes(r) {
        assert forall i :: 0 <= i < 8 ==> behind[i] == r.content[i];
      }
    }
  }

  lemma {:induction false} CutRecordIsRead(r: Record, k: nat, g: Streams)
    requires Fits(r) && HEADER <= k < |Encode(r)|
    ensures var s := Encode(r)[..k];
      && ReadReply(s, g) == ReadBody(r.kind, |r.content|, |r.padding|, s[HEADER..], g)
      && forall i :: 0 <= i < |r.content| && i < k - HEADER ==> s[HEADER..][i] == r.content[i]
  {
    hide ReadBody;
    var h := Header(r.kind, |r.content|, |r.padding|);
    var s := Encode(r)[..k];
    assert forall i :: 0 <= i < HEADER ==> s[i] == h[i];
    assert |r.content| / 256 * 256 + |r.content| % 256 == |r.content|;
  }

  /** A whole reply byte by byte, sections 3.3 and 8: output, padded error text, and the end of the request
      with status 258. */
  lemma ReplyInBytes()
    ensures ReadReply([1, 6, 0, 1, 0, 2, 0, 0, 72, 105] + [1, 7, 0, 1, 0, 1, 1, 0, 33, 0]
                      + [1, 3, 0, 1, 0, 8, 0, 0, 0, 0, 1, 2, 0, 0, 0, 0], Streams([], [], []))
            == Reply(Streams([72, 105], [33], []), Okay, 258)
  {
    hide ReadReply;
    var a, b, c := Record(6, [72, 105], []), Record(7, [33], [0]), Record(3, [0, 0, 1, 2, 0, 0, 0, 0], []);
    var rs := [a, b];
    assert rs[1..] == [b] && rs[1..][1..] == [];
    assert Encode(a) == [1, 6, 0, 1, 0, 2, 0, 0, 72, 105];
    assert Encode(b) == [1, 7, 0, 1, 0, 1, 1, 0, 33, 0];
    assert Encode(c) == [1, 3, 0, 1, 0, 8, 0, 0, 0, 0, 1, 2, 0, 0, 0, 0];
    EncodeTwo(a, b);
    StatusIsDelivered(rs, c, [], Streams([], [], []), 258);
    CollectedTwo(a, b);
    assert Encode(c) + [] == Encode(c);
  }

  lemma EncodeTwo(a: Record, b: Record)
    requires Fits(a) && Fits(b)
    ensures EncodeAll([a, b]) == Encode(a) + Encode(b)
  {
    hide Encode;
    assert [a, b][1..] == [b] && [b][1..] == [];
    assert EncodeAll([b]) == Encode(b) + EncodeAll([]);
  }

  lemma CollectedTwo(a: Record, b: Record)
    requires a.kind == STDOUT && b.kind == STDERR
    ensures Joined(Streams([], [], []), Collected([a, b])) == Streams(a.content, b.content, [])
  {
    var none := Streams([], [], []);
    var one := Add(none, a.kind, a.content);
    assert [a, b][1..] == [b] && [b][1..] == [];
    assert Collected([]) == none;
    JoinedAdd(none, a, [a, b]);
    JoinedAdd(one, b, [b]);
    assert Add(one, b.kind, b.content) == Streams([] + a.content, [] + b.content, []);
  }
}
