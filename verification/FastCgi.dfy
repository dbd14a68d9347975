/** rcli.c: the FastCGI client, sending a request and reading the reply. */
module FastCgi {
  import opened Bytes
  import opened Common
  import opened FastCgiFormat
  import opened FastCgiReply
  import opened FastCgiRequest

  /** What read gives: an error, or some bytes; none at the end of the stream. */
  datatype Got = Failed | Chunk(bytes: Bytes)

  /** A connected socket. The bytes the server will send are fixed; how they arrive is not. */
  class Socket {
    const input: Bytes
    var pos: nat
    ghost var sent: Bytes

    ghost predicate Valid()
      reads this
    {
      pos <= |input|
    }

    function Rest(): Bytes
      requires Valid()
      reads this
    {
      input[pos..]
    }

    constructor (s: Bytes)
      ensures Valid() && Rest() == s && sent == []
    {
      input, pos, sent := s, 0, [];
    }

    /** read: an error at any time, and otherwise at least one byte if there is any. */
    method Read(max: nat) returns (g: Got)
      requires Valid() && max > 0
      modifies this`pos
      ensures Valid()
      ensures g.Failed? ==> pos == old(pos)
      ensures g.Chunk? ==> pos == old(pos) + |g.bytes| && |g.bytes| <= max && g.bytes == input[old(pos)..pos]
      ensures g.Chunk? && g.bytes == [] ==> Rest() == []
    {
      var fails: bool := *;
      if fails { return Failed; }
      var left := |input| - pos;
      if left == 0 { return Chunk([]); }
      assert 1 <= max && 1 <= left;
      var n: nat :| 1 <= n <= max && n <= left;
      g := Chunk(input[pos..pos + n]);
      pos := pos + n;
    }

    /** rim_write_socket: all of it, or an error. */
    method Write(s: Bytes) returns (ok: bool)
      modifies this`sent
      ensures ok ==> sent == old(sent) + s
    {
      ok := true;
      var written := 0;
      while written < |s| && ok
        invariant written <= |s| && (ok ==> sent == old(sent) + s[..written])
        decreases |s| - written, ok
      {
        var fails: bool := *;
        if fails {
          ok := false;
        } else {
          var n: nat :| n <= |s| - written && 1 <= n;
          assert s[..written] + s[written..written + n] == s[..written + n];
          assert old(sent) + s[..written] + s[written..written + n] == old(sent) + s[..written + n];
          sent := sent + s[written..written + n];
          written := written + n;
        }
      }
      assert s[..|s|] == s;
    }
  }

  // ---------- sending ----------

  /** build_hdr, for a record without padding. */
  method BuildHdr(kind: byte, len: nat) returns (h: Bytes)
    requires len <= MAX_LEN
    ensures h == Header(kind, len, 0)
  {
    h := [VER_1, kind, 0, REQ_ID, len / 256 % 256, len % 256, 0, 0];
  }

  /** The environment of a request while it is put together. */
  class Environment {
    var paramLen: nat
    var env: array<byte>
    var envP: nat

    constructor ()
      ensures paramLen == 0 && envP == 0 && fresh(env)
    {
      paramLen, envP := 0, 0;
      env := new byte[0];
    }

    /** rim_size_env. */
    method SizeEnv(nameLen: nat, valLen: nat)
      modifies this`paramLen
      ensures paramLen == old(paramLen) + LenSize(nameLen) + LenSize(valLen) + nameLen + valLen
    {
      paramLen := paramLen + if nameLen < 0x80 then 1 else 4;
      paramLen := paramLen + if valLen < 0x80 then 1 else 4;
      paramLen := paramLen + nameLen;
      paramLen := paramLen + valLen;
    }

    /** memcpy to the place where the environment is written. */
    method Put(s: Bytes)
      requires envP + |s| <= env.Length
      modifies this`envP, env
      ensures envP == old(envP) + |s| && env[..envP] == old(env[..envP]) + s
    {
      var i := 0;
      while i < |s|
        invariant 0 <= i <= |s| && envP == old(envP)
        invariant env[..envP + i] == old(env[..envP]) + s[..i]
      {
        env[envP + i] := s[i];
        assert env[..envP + (i + 1)] == env[..envP + i] + [s[i]];
        i := i + 1;
      }
      assert s[..|s|] == s;
      envP := envP + |s|;
    }

    /** The header of rim_send_env for one length. */
    method LenBytes(n: nat) returns (h: Bytes)
      requires n < 0x8000_0000
      ensures h == EncodeLen(n)
    {
      if n < 0x80 {
        h := [n];
      } else {
        h := [n / 0x100_0000 + 0x80, n / 0x1_0000 % 256, n / 0x100 % 256, n % 256];
      }
    }

    /** rim_send_env. */
    method SendEnv(p: Pair)
      requires Sized(p) && envP + PairSize(p) <= env.Length
      modifies this`envP, env
      ensures envP == old(envP) + PairSize(p) && env[..envP] == old(env[..envP]) + EncodePair(p)
    {
      hide EncodeLen;
      ghost var was := env[..envP];
      var a := LenBytes(|p.name|);
      var b := LenBytes(|p.value|);
      Put(a + b);
      Put(p.name);
      Put(p.value);
      assert was + (a + b) + p.name + p.value == was + (a + b + p.name + p.value);
    }

    /** The environment part of rim_cli_request: the pairs are sized first, refused when they do not
        fit a record, and then written into a buffer of just that size. */
    method Build(ps: seq<Pair>) returns (ok: bool)
      requires forall i :: 0 <= i < |ps| ==> Sized(ps[i])
      modifies this, env
      ensures ok <==> PairsSize(ps) < MAX_LEN - HEADER
      ensures ok ==> envP == paramLen == env.Length <= MAX_LEN && env[..] == EncodePairs(ps)
      ensures env == old(env) || fresh(env)
    {
      hide PairsSize, EncodePairs;
      SizeAll(ps);
      if paramLen >= MAX_LEN - HEADER { return false; }
      env := new byte[paramLen](_ => 0);
      SendAll(ps);
      assert env[..envP] == env[..];
      ok := true;
    }

    /** The first pass over the pairs. */
    method SizeAll(ps: seq<Pair>)
      modifies this`paramLen
      ensures paramLen == PairsSize(ps)
    {
      hide PairsSize;
      paramLen := 0;
      var i := 0;
      NoPairs(ps);
      while i < |ps|
        invariant 0 <= i <= |ps| && paramLen == PairsSize(ps[..i])
      {
        SizeMore(ps, i);
        SizeEnv(|ps[i].name|, |ps[i].value|);
        i := i + 1;
      }
      assert ps[..i] == ps;
    }

    /** The second pass, into a buffer of just that size. */
    method SendAll(ps: seq<Pair>)
      requires env.Length == PairsSize(ps) && forall i :: 0 <= i < |ps| ==> Sized(ps[i])
      modifies this`envP, env
      ensures envP == PairsSize(ps) && env[..envP] == EncodePairs(ps)
    {
      hide PairsSize, EncodePairs, EncodePair, PairSize;
      envP := 0;
      var i := 0;
      NoPairs(ps);
      assert env[..0] == [];
      while i < |ps|
        invariant 0 <= i <= |ps| && envP == PairsSize(ps[..i]) <= env.Length && env[..envP] == EncodePairs(ps[..i])
      {
        SizeMore(ps, i);
        EncodeMore(ps, i);
        SizesGrow(ps, i + 1);
        SendEnv(ps[i]);
        i := i + 1;
      }
      assert ps[..i] == ps;
    }
  }

  lemma NoPairs(ps: seq<Pair>)
    ensures PairsSize(ps[..0]) == 0 && EncodePairs(ps[..0]) == []
  {
  }

  lemma SizeMore(ps: seq<Pair>, i: nat)
    requires i < |ps|
    ensures PairsSize(ps[..i + 1]) == PairsSize(ps[..i]) + PairSize(ps[i])
  {
    assert ps[..i + 1][..i] == ps[..i];
  }

  lemma EncodeMore(ps: seq<Pair>, i: nat)
    requires i < |ps| && forall j :: 0 <= j < |ps| ==> Sized(ps[j])
    ensures EncodePairs(ps[..i + 1]) == EncodePairs(ps[..i]) + EncodePair(ps[i])
  {
    hide EncodePair;
    assert ps[..i + 1][..i] == ps[..i];
  }

  lemma {:induction false} SizesGrow(ps: seq<Pair>, i: nat)
    requires i <= |ps|
    ensures PairsSize(ps[..i]) <= PairsSize(ps)
  {
    if i < |ps| {
      SizesGrow(ps[..|ps| - 1], i);
      assert ps[..|ps| - 1][..i] == ps[..i];
    } else {
      assert ps[..i] == ps;
    }
  }

  /** A header and the content behind it. */
  method SendRecord(sock: Socket, kind: byte, content: Bytes) returns (ok: bool)
    requires |content| <= MAX_LEN
    modifies sock`sent
    ensures ok ==> sock.sent == old(sock.sent) + Encode(Record(kind, content, []))
  {
    ghost var was := sock.sent;
    var header := BuildHdr(kind, |content|);
    ok := sock.Write(header);
    if ok && |content| > 0 {
      ok := sock.Write(content);
    }
    assert was + header + content == was + (header + content + []);
    assert content == [] ==> was + header == was + header + content;
  }

  /** The input part of rim_cli_request: a request that has no body sends nothing. */
  method SendInput(sock: Socket, r: Input) returns (ok: bool)
    requires LongEnough(r)
    modifies sock`sent
    ensures forall i :: 0 <= i < |InputRecords(r)| ==> Fits(InputRecords(r)[i])
    ensures !HasBody(r) ==> ok && sock.sent == old(sock.sent)
    ensures ok ==> sock.sent == old(sock.sent) + EncodeAll(InputRecords(r))
  {
    InputFits(r);
    var body := true;
    if r.reqBody.None? || r.contentLen == 0 || r.contentType.None? || r.contentType.value == [] {
      body := false;
    }
    ok := true;
    if body {
      ok := SendBody(sock, r.reqBody.value[..if r.contentLen > 0 then r.contentLen else 0]);
    } else {
      assert sock.sent + [] == sock.sent;
    }
  }

  /** The records of a body: at most 65527 bytes each, and an empty one. */
  method SendBody(sock: Socket, body: Bytes) returns (ok: bool)
    modifies sock`sent
    ensures AllFit(body)
    ensures ok ==> sock.sent == old(sock.sent) + EncodeAll(BodyRecords(Chunks(body)))
  {
    hide Chunks, BodyRecords, EncodeAll, Encode;
    var reqBodyLen, ibody := |body|, 0;
    BodyIsDelivered(body);
    assert body[0..] == body;
    while reqBodyLen > 0
      invariant 0 <= ibody && 0 <= reqBodyLen && ibody + reqBodyLen == |body| && AllFit(body[ibody..]) && AllFit(body)
      invariant sock.sent + EncodeAll(BodyRecords(Chunks(body[ibody..]))) == old(sock.sent) + EncodeAll(BodyRecords(Chunks(body)))
    {
      var packet := if reqBodyLen > MAX_LEN - HEADER then MAX_LEN - HEADER else reqBodyLen;
      ghost var was, left := sock.sent, body[ibody..];
      FirstChunk(left, packet);
      assert left[packet..] == body[ibody + packet..];
      assert left[..packet] == body[ibody..ibody + packet];
      ok := SendRecord(sock, STDIN, body[ibody..ibody + packet]);
      if !ok { return; }
      Regroup(was, Encode(Record(STDIN, left[..packet], [])), EncodeAll(BodyRecords(Chunks(left[packet..]))));
      reqBodyLen := reqBodyLen - packet;
      ibody := ibody + packet;
    }
    assert body[ibody..] == [];
    OnlyEmpty();
    ok := SendRecord(sock, STDIN, []);
  }

  lemma Regroup(a: Bytes, b: Bytes, c: Bytes)
    ensures (a + b) + c == a + (b + c)
  {
  }

  ghost predicate AllFit(body: Bytes) {
    var rs := BodyRecords(Chunks(body));
    forall i :: 0 <= i < |rs| ==> Fits(rs[i])
  }

  lemma FirstRecord(left: Bytes, packet: nat)
    requires left != [] && packet == if |left| > MAX_LEN - HEADER then MAX_LEN - HEADER else |left|
    ensures var rs, more := BodyRecords(Chunks(left)), BodyRecords(Chunks(left[packet..]));
      rs == [Record(STDIN, left[..packet], [])] + more && rs[1..] == more
  {
    var cs := Chunks(left);
    if |left| <= MAX_LEN - HEADER { assert left[..packet] == left && left[packet..] == []; }
    assert cs == [left[..packet]] + Chunks(left[packet..]);
    assert cs[1..] == Chunks(left[packet..]);
  }

  lemma FirstChunk(left: Bytes, packet: nat)
    requires left != [] && packet == if |left| > MAX_LEN - HEADER then MAX_LEN - HEADER else |left|
    ensures AllFit(left) && AllFit(left[packet..])
    ensures EncodeAll(BodyRecords(Chunks(left))) ==
      Encode(Record(STDIN, left[..packet], [])) + EncodeAll(BodyRecords(Chunks(left[packet..])))
  {
    BodyIsDelivered(left);
    BodyIsDelivered(left[packet..]);
    FirstRecord(left, packet);
    hide Encode, Chunks, BodyRecords;
    assert EncodeAll(BodyRecords(Chunks(left))) ==
      Encode(BodyRecords(Chunks(left))[0]) + EncodeAll(BodyRecords(Chunks(left))[1..]);
  }

  lemma OnlyEmpty()
    ensures AllFit([]) && EncodeAll(BodyRecords(Chunks([]))) == Encode(Record(STDIN, [], []))
  {
    var r := Record(STDIN, [], []);
    assert BodyRecords([]) == [r];
    assert [r][1..] == [];
    assert EncodeAll([r]) == Encode(r) + EncodeAll([]);
  }

  datatype SendStatus = Sent | NotWritten | EnvOdd | EnvTooLong

  /** What rim_cli_request sends. Its refusals come behind the record that begins the request. */
  method SendRequest(sock: Socket, r: Request) returns (st: SendStatus)
    requires Sendable(r)
    modifies sock`sent
    ensures st.EnvOdd? ==> |r.env| % 2 == 1
    ensures st.EnvTooLong? ==> |r.env| % 2 == 0 && !ParamsFit(r)
    ensures st.EnvOdd? || st.EnvTooLong? ==> sock.sent == old(sock.sent) + Encode(Begin())
    ensures st.Sent? ==>
      && |r.env| % 2 == 0 && ParamsFit(r)
      && (forall i :: 0 <= i < |Requested(r)| ==> Fits(Requested(r)[i]))
      && sock.sent == old(sock.sent) + EncodeAll(Requested(r))
  {
    hide Params, EncodePairs, InputRecords, EncodeAll, PairsSize;
    ghost var was := sock.sent;
    var ok := SendRecord(sock, BEG_REQ, [0, RESPONDER, 0, 0, 0, 0, 0, 0]);
    if !ok { return NotWritten; }
    if |r.env| % 2 != 0 { return EnvOdd; }
    var e := new Environment();
    var fits := e.Build(Params(r));
    if !fits { return EnvTooLong; }
    RequestedFits(r);
    ok := SendRecord(sock, PARAM, e.env[..]);
    if !ok { return NotWritten; }
    ok := SendRecord(sock, PARAM, []);
    if !ok { return NotWritten; }
    ok := SendInput(sock, r.input);
    if !ok { return NotWritten; }
    ThreeThenMore(Requested(r), was);
    assert Requested(r)[3..] == InputRecords(r.input);
    st := Sent;
  }

  lemma ThreeThenMore(rs: seq<Record>, was: Bytes)
    requires |rs| >= 3 && forall i :: 0 <= i < |rs| ==> Fits(rs[i])
    ensures was + EncodeAll(rs) == was + Encode(rs[0]) + Encode(rs[1]) + Encode(rs[2]) + EncodeAll(rs[3..])
  {
    hide Encode;
    assert rs[1..][1..] == rs[2..] && rs[2..][1..] == rs[3..];
    assert EncodeAll(rs[1..]) == Encode(rs[1]) + EncodeAll(rs[2..]);
    assert EncodeAll(rs[2..]) == Encode(rs[2]) + EncodeAll(rs[3..]);
    FourRegroup(was, Encode(rs[0]), Encode(rs[1]), Encode(rs[2]), EncodeAll(rs[3..]));
  }

  lemma FourRegroup(was: Bytes, a: Bytes, b: Bytes, c: Bytes, d: Bytes)
    ensures was + (a + (b + (c + d))) == was + a + b + c + d
  {
  }

  // ---------- reading the reply ----------

  class Reader {
    const socket: Socket
    var data: array<byte>
    var dataLen: nat
    var error: array<byte>
    var errorLen: nat
    var other: array<byte>
    var otherLen: nat
    var doneHeader: bool
    var kind: byte
    var msgRemain: nat
    var paddingLen: nat
    var readDone: bool
    var reqStatus: int
    var readStatus: ReadStatus

    ghost predicate Valid()
      reads this, socket
    {
      && socket.Valid() && data != error && data != other && error != other
      && dataLen < data.Length && errorLen < error.Length && otherLen < other.Length
    }

    /** What is in the buffers. */
    ghost function Collect(): Streams
      requires Valid()
      reads this, socket, data, error, other
    {
      Streams(data[..dataLen], error[..errorLen], other[..otherLen])
    }

    /** Behind a header there is room for the content of its record, and for a NUL. */
    ghost predicate Room()
      requires Valid()
      reads this, socket
    {
      if kind == STDOUT then dataLen + msgRemain < data.Length
      else if kind == STDERR then errorLen + msgRemain < error.Length
      else otherLen + msgRemain < other.Length
    }

    /** fc_edge at the start. */
    constructor (s: Socket)
      requires s.Valid()
      ensures Valid() && socket == s && fresh(data) && fresh(error) && fresh(other)
      ensures Collect() == Streams([], [], []) && !doneHeader && !readDone && readStatus == Okay
    {
      socket := s;
      data := new byte[1](_ => 0);
      error := new byte[1](_ => 0);
      other := new byte[1](_ => 0);
      dataLen, errorLen, otherLen := 0, 0, 0;
      doneHeader, readDone, kind, msgRemain, paddingLen := false, false, 0, 0, 0;
      reqStatus, readStatus := 0, Okay;
    }

    /** rim_read_socket with check_read: the whole length, or an error. */
    method ReadSocket(buf: array<byte>, at: nat, len: nat) returns (cnt: int)
      requires socket.Valid() && len > 0 && at + len <= buf.Length
      modifies this`readStatus, socket`pos, buf
      ensures socket.Valid() && (cnt == len || cnt <= 0)
      ensures cnt > 0 ==> |old(socket.Rest())| >= len && socket.Rest() == old(socket.Rest())[len..]
      ensures cnt > 0 ==> buf[at..at + len] == old(socket.Rest())[..len] && readStatus == old(readStatus)
      ensures cnt <= 0 ==> readStatus == SockRead || (readStatus == ProtErr && |old(socket.Rest())| < len)
      ensures forall i :: 0 <= i < buf.Length && !(at <= i < at + len) ==> buf[i] == old(buf[i])
    {
      var gotten := 0;
      ghost var rest := socket.Rest();
      while true
        invariant socket.Valid() && 0 <= gotten < len && readStatus == old(readStatus)
        invariant gotten <= |rest| && socket.Rest() == rest[gotten..]
        invariant buf[at..at + gotten] == rest[..gotten]
        invariant forall i :: 0 <= i < buf.Length && !(at <= i < at + len) ==> buf[i] == old(buf[i])
        decreases len - gotten
      {
        ghost var p := socket.pos;
        var g := socket.Read(len - gotten);
        if g.Failed? {
          readStatus := SockRead;
          return -1;
        }
        if g.bytes == [] {
          readStatus := ProtErr;
          return 0;
        }
        Store(buf, at + gotten, g.bytes);
        gotten := gotten + |g.bytes|;
        if gotten >= len { break; }
      }
      cnt := len;
    }

    /** What is left to be read of the reply, as it stands. */
    ghost function Outlook(): Reply
      requires Valid()
      reads this, socket, data, error, other
    {
      if doneHeader then ReadBody(kind, msgRemain, paddingLen, socket.Rest(), Collect())
      else ReadReply(socket.Rest(), Collect())
    }

    /** The reading has ended as the reply r says, unless the socket failed. */
    ghost predicate Ended(r: Reply)
      requires Valid()
      reads this, socket, data, error, other
    {
      readStatus == SockRead || (readStatus == r.status && Collect() == r.got)
    }

    /** The bytes of a header. */
    method HeaderBytes() returns (ok: bool, h: Bytes)
      requires socket.Valid() && !readDone
      modifies this`readStatus, socket`pos
      ensures socket.Valid()
      ensures ok ==> |old(socket.Rest())| >= HEADER && h == old(socket.Rest())[..HEADER]
      ensures ok ==> socket.Rest() == old(socket.Rest())[HEADER..] && readStatus == old(readStatus)
      ensures !ok ==> readStatus == SockRead || (readStatus == ProtErr && |old(socket.Rest())| < HEADER)
    {
      var header := new byte[HEADER](_ => 0);
      var cnt := ReadSocket(header, 0, HEADER);
      ok, h := cnt > 0, header[..];
      assert h == header[0..0 + HEADER];
    }

    /** The part of fc_server_read that reads a header. */
    method ReadHeader() returns (ok: bool)
      requires Valid() && !doneHeader && !readDone && readStatus == Okay
      modifies this`kind, this`msgRemain, this`paddingLen, this`doneHeader, this`readStatus, this`data, this`error, this`other, socket`pos
      ensures Valid() && Collect() == old(Collect())
      ensures (data == old(data) || fresh(data)) && (error == old(error) || fresh(error)) && (other == old(other) || fresh(other))
      ensures ok ==> doneHeader && Room() && Outlook() == old(Outlook()) && readStatus == Okay
      ensures ok ==> |socket.Rest()| < |old(socket.Rest())|
      ensures !ok ==> Ended(old(Outlook())) && readStatus != Okay
    {
      hide ReadBody;
      var h;
      ok, h := HeaderBytes();
      if !ok { return; }
      ok := false;
      if h[0] != VER_1 { readStatus := BadVer; return; }
      if h[3] as int + h[2] as int * 256 != REQ_ID { readStatus := ProtErr; return; }
      msgRemain := h[5] as int + h[4] as int * 256;
      paddingLen := h[6];
      kind := h[1];
      MakeRoom();
      doneHeader := true;
      ok := true;
    }

    /** Room for the content behind a header, in the buffer that its type names. */
    method MakeRoom()
      requires Valid()
      modifies this`data, this`error, this`other
      ensures Valid() && Room() && Collect() == old(Collect())
      ensures (data == old(data) || fresh(data)) && (error == old(error) || fresh(error)) && (other == old(other) || fresh(other))
    {
      if kind == STDOUT {
        data := Grown(data, dataLen, msgRemain);
      } else if kind == STDERR {
        error := Grown(error, errorLen, msgRemain);
      } else {
        other := Grown(other, otherLen, msgRemain);
      }
    }

    /** realloc of a buffer, to what is in it, what comes, and a NUL. */
    method Grown(buf: array<byte>, len: nat, more: nat) returns (res: array<byte>)
      requires len < buf.Length
      ensures fresh(res) && res.Length == len + more + 1 && res[..len] == buf[..len]
    {
      res := new byte[len + more + 1](_ => 0);
      forall i | 0 <= i < len { res[i] := buf[i]; }
    }

    /** The outlook behind the content of a record. */
    ghost function Behind(): Reply
      requires Valid()
      reads this, socket, data, error, other
    {
      var rest, g := socket.Rest(), Collect();
      if readDone then Reply(g, if |rest| < paddingLen then ProtErr else Okay, reqStatus)
      else if kind == UNK_TYPE then Reply(g, UnkType, 0)
      else if |rest| < paddingLen then Reply(g, ProtErr, 0)
      else ReadReply(rest[paddingLen..], g)
    }

    /** The content of an output record goes behind what is in the data. */
    method TakeOut() returns (cnt: int)
      requires Valid() && Room() && kind == STDOUT && msgRemain > 0 && !readDone
      modifies this`dataLen, this`readStatus, socket`pos, data
      ensures Valid()
      ensures cnt > 0 ==> |old(socket.Rest())| >= msgRemain && socket.Rest() == old(socket.Rest())[msgRemain..]
      ensures cnt > 0 ==> Collect() == Add(old(Collect()), kind, old(socket.Rest())[..msgRemain]) && readStatus == old(readStatus)
      ensures cnt <= 0 ==> Collect() == old(Collect())
      ensures cnt <= 0 ==> readStatus == SockRead || (readStatus == ProtErr && |old(socket.Rest())| < msgRemain)
    {
      ghost var was := data[..dataLen];
      cnt := ReadSocket(data, dataLen, msgRemain);
      assert data[..dataLen] == was;
      if cnt > 0 {
        assert data[..dataLen + msgRemain] == was + data[dataLen..dataLen + msgRemain];
        dataLen := dataLen + cnt;
      }
    }

    method TakeErr() returns (cnt: int)
      requires Valid() && Room() && kind == STDERR && msgRemain > 0 && !readDone
      modifies this`errorLen, this`readStatus, socket`pos, error
      ensures Valid()
      ensures cnt > 0 ==> |old(socket.Rest())| >= msgRemain && socket.Rest() == old(socket.Rest())[msgRemain..]
      ensures cnt > 0 ==> Collect() == Add(old(Collect()), kind, old(socket.Rest())[..msgRemain]) && readStatus == old(readStatus)
      ensures cnt <= 0 ==> Collect() == old(Collect())
      ensures cnt <= 0 ==> readStatus == SockRead || (readStatus == ProtErr && |old(socket.Rest())| < msgRemain)
    {
      ghost var was := error[..errorLen];
      cnt := ReadSocket(error, errorLen, msgRemain);
      assert error[..errorLen] == was;
      if cnt > 0 {
        assert error[..errorLen + msgRemain] == was + error[errorLen..errorLen + msgRemain];
        errorLen := errorLen + cnt;
      }
    }

    /** Any other content is read behind what is in the other buffer, without counting it yet. */
    method TakeOther() returns (cnt: int)
      requires Valid() && Room() && kind != STDOUT && kind != STDERR && msgRemain > 0 && !readDone
      modifies this`readStatus, socket`pos, other
      ensures Valid() && Collect() == old(Collect())
      ensures cnt > 0 ==> cnt == msgRemain && |old(socket.Rest())| >= msgRemain && socket.Rest() == old(socket.Rest())[msgRemain..]
      ensures cnt > 0 ==> other[otherLen..otherLen + msgRemain] == old(socket.Rest())[..msgRemain]
      ensures cnt > 0 ==> other[..otherLen + msgRemain] == old(other[..otherLen]) + old(socket.Rest())[..msgRemain]
      ensures cnt > 0 ==> readStatus == old(readStatus)
      ensures cnt <= 0 ==> readStatus == SockRead || (readStatus == ProtErr && |old(socket.Rest())| < msgRemain)
    {
      ghost var was := other[..otherLen];
      cnt := ReadSocket(other, otherLen, msgRemain);
      assert other[..otherLen] == was;
      assert other[..otherLen + msgRemain] == was + other[otherLen..otherLen + msgRemain];
    }

    /** An end record: the buffers are closed, and the request is done if its status says so. */
    method FinishRequest(cnt: nat, ghost s: Bytes, ghost rest: Bytes) returns (ok: bool)
      requires Valid() && Room() && kind == END_REQ && 0 < cnt == msgRemain <= |s| && readStatus == Okay && !readDone
      requires other[otherLen..otherLen + cnt] == s[..cnt] && socket.Rest() == s[cnt..]
      modifies this`readDone, this`reqStatus, this`readStatus, data, error
      ensures Valid() && Collect() == old(Collect()) && data[dataLen] == 0 && error[errorLen] == 0
      ensures ok ==> readDone && readStatus == Okay && Behind() == ReadEnd(cnt, paddingLen, s, Collect())
      ensures !ok ==> Ended(ReadEnd(cnt, paddingLen, s, Collect())) && readStatus != Okay
    {
      data[dataLen] := 0;
      error[errorLen] := 0;
      assert data[..dataLen] == old(data[..dataLen]) && error[..errorLen] == old(error[..errorLen]);
      if cnt != 8 { readStatus := ProtErr; return false; }
      ghost var c := other[otherLen..otherLen + cnt];
      assert forall i :: 0 <= i < 8 ==> other[otherLen + i] == c[i] == s[..cnt][i] == s[i];
      readDone := true;
      if other[otherLen + 4] != REQ_DONE { readStatus := SrvErr; return false; }
      reqStatus := AppStatus(other[otherLen..otherLen + 4]);
      ok := true;
    }

    /** The content of a record that is no end, in the buffer that its type names. */
    method TakeStream() returns (ok: bool)
      requires Valid() && Room() && doneHeader && msgRemain > 0 && kind != END_REQ && !readDone && readStatus == Okay
      modifies this`dataLen, this`errorLen, this`otherLen, this`readStatus, socket`pos, data, error, other
      ensures Valid()
      ensures ok ==> readStatus == Okay && Behind() == old(Outlook())
      ensures ok ==> |socket.Rest()| <= |old(socket.Rest())|
      ensures !ok ==> Ended(old(Outlook())) && readStatus != Okay
    {
      hide ReadReply, Add;
      ghost var s, g, n := socket.Rest(), Collect(), msgRemain;
      var cnt;
      if kind == STDOUT {
        cnt := TakeOut();
      } else if kind == STDERR {
        cnt := TakeErr();
      } else {
        cnt := TakeOther();
        if cnt > 0 {
          otherLen := otherLen + cnt;
          AddOther(g, kind, s[..n]);
        }
      }
      ok := cnt > 0;
      if ok { BehindStream(s, n, paddingLen); }
    }

    lemma AddOther(g: Streams, k: byte, c: Bytes)
      requires k != STDOUT && k != STDERR
      ensures Add(g, k, c) == g.(other := g.other + c)
    {
    }

    lemma BehindStream(s: Bytes, n: nat, pad: nat)
      requires n <= |s|
      ensures |s| < n + pad || s[n..][pad..] == s[n + pad..]
    {
    }

    /** The content of a record. */
    method ReadContent() returns (ok: bool)
      requires Valid() && Room() && doneHeader && !readDone && readStatus == Okay
      modifies this`dataLen, this`errorLen, this`otherLen, this`msgRemain, this`readDone, this`reqStatus, this`readStatus
      modifies socket`pos, data, error, other
      ensures Valid()
      ensures ok ==> readStatus == Okay && Behind() == old(Outlook()) && msgRemain == 0
      ensures ok && readDone ==> data[dataLen] == 0 && error[errorLen] == 0
      ensures !ok ==> Ended(old(Outlook())) && readStatus != Okay
      ensures ok ==> |socket.Rest()| <= |old(socket.Rest())|
    {
      hide ReadReply, ReadEnd;
      ok := true;
      if msgRemain > 0 {
        if kind == END_REQ {
          ghost var s := socket.Rest();
          var cnt := TakeOther();
          if cnt <= 0 { return false; }
          ok := FinishRequest(cnt, s, socket.Rest());
        } else {
          ok := TakeStream();
        }
        if !ok { return; }
        msgRemain := 0;
      }
    }

    /** The padding of a record, which is thrown away. */
    method ReadPadding() returns (ok: bool)
      requires Valid() && doneHeader && readStatus == Okay && (readDone || kind != UNK_TYPE)
      modifies this`paddingLen, this`doneHeader, this`readStatus, socket`pos
      ensures Valid() && Collect() == old(Collect())
      ensures ok ==> readStatus == Okay && !doneHeader
      ensures ok && readDone ==> Ended(old(Behind())) && reqStatus == old(Behind()).app
      ensures ok && !readDone ==> Outlook() == old(Behind())
      ensures !ok ==> Ended(old(Behind())) && readStatus != Okay
      ensures ok ==> |socket.Rest()| <= |old(socket.Rest())|
    {
      hide ReadReply;
      if paddingLen > 0 {
        ok := SkipPadding(paddingLen);
        if !ok { return; }
        paddingLen := 0;
      }
      doneHeader := false;
      ok := true;
    }

    method SkipPadding(n: nat) returns (ok: bool)
      requires socket.Valid() && n > 0
      modifies this`readStatus, socket`pos
      ensures socket.Valid()
      ensures ok ==> |old(socket.Rest())| >= n && socket.Rest() == old(socket.Rest())[n..] && readStatus == old(readStatus)
      ensures !ok ==> readStatus == SockRead || (readStatus == ProtErr && |old(socket.Rest())| < n)
    {
      var padb := new byte[n](_ => 0);
      var cnt := ReadSocket(padb, 0, n);
      ok := cnt > 0;
    }

    /** fc_server_read. However the bytes arrive, the buffers and the status are what the reply means,
        unless the socket fails; when it ends well, data and error are closed by a NUL. */
    method ServerRead()
      requires Valid() && !doneHeader && !readDone && readStatus == Okay
      modifies this, socket`pos, data, error, other
      ensures Valid()
      ensures Ended(old(Outlook()))
      ensures readStatus == Okay ==>
        reqStatus == old(Outlook()).app && data[dataLen] == 0 && error[errorLen] == 0
    {
      hide ReadReply, ReadBody;
      ghost var target := Outlook();
      while true
        invariant Valid() && !readDone && readStatus == Okay && Outlook() == target
        invariant doneHeader ==> Room()
        invariant (data == old(data) || fresh(data)) && (error == old(error) || fresh(error)) && (other == old(other) || fresh(other))
        decreases |socket.Rest()|, doneHeader
      {
        if doneHeader {
          var ok := ReadContent();
          if !ok { return; }
          if !readDone && kind == UNK_TYPE {
            readStatus := UnkType;
            return;
          }
          ok := ReadPadding();
          if !ok { return; }
        } else {
          var ok := ReadHeader();
          if !ok { return; }
        }
        if readDone { break; }
      }
    }

    /** The bytes that read leaves in a buffer. */
    method Store(buf: array<byte>, at: nat, s: Bytes)
      requires at + |s| <= buf.Length
      modifies buf
      ensures buf[..] == old(buf[..at]) + s + old(buf[at + |s|..])
    {
      forall i | 0 <= i < |s| { buf[at + i] := s[i]; }
    }
  }
}
