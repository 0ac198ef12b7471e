/** One message from a socket: header, payload length, payload, dispatch on the type byte. */
module Decoder {
  import opened Wrappers
  import opened Bytes
  import opened Messages
  import opened CppCodec
  import opened CppLogin
  import opened Socket

  const HEADER_LENGTH := 10
  const TYPE_POSITION := 10
  const LENGTH_POSITION := 11

  /**
   What one call of decode makes of a stream that holds a whole header, and how many bytes it takes. A
   negative length, or one that is no int, sizes an array on the stack: C++ says nothing about it.
   */
  function DecodeFrame(s: bytes, broken: bool, stale: Memory): (r: (Result<Message>, nat))
    requires |s| >= TOTAL_HEADER_LENGTH
    ensures TOTAL_HEADER_LENGTH <= r.1 <= |s|
  {
    if s[..HEADER_LENGTH] != HEADER then (Err(BadHeader), TOTAL_HEADER_LENGTH)
    else
      var len := ReadInt64(s[LENGTH_POSITION..TOTAL_HEADER_LENGTH]);
      if len < 0 || len > INT_MAX then (Err(Undefined), TOTAL_HEADER_LENGTH)
      else if |s| - TOTAL_HEADER_LENGTH < len then (Err(if broken then ReceiveFailed else TooShort), |s|)
      else (DecodePayload(s[TYPE_POSITION], s[TOTAL_HEADER_LENGTH..TOTAL_HEADER_LENGTH + len], stale),
            TOTAL_HEADER_LENGTH + len)
  }

  /** The header check and the length; the type is `header[TYPE_POSITION]`. */
  method DecodeHeader(header: bytes) returns (r: Result<int64>)
    requires |header| == TOTAL_HEADER_LENGTH
    ensures r == if header[..HEADER_LENGTH] != HEADER then Err(BadHeader)
                 else Ok(ReadInt64(header[LENGTH_POSITION..]))
  {
    for i := 0 to HEADER_LENGTH
      invariant header[..i] == HEADER[..i]
    {
      if HEADER[i] != header[i] {
        assert header[..HEADER_LENGTH][i] != HEADER[i];
        return Err(BadHeader);
      }
    }
    var cur := new Cursor(header);
    cur.pos := LENGTH_POSITION;
    r := cur.DecodeLong();
    assert header[LENGTH_POSITION..] == header[LENGTH_POSITION..TOTAL_HEADER_LENGTH];
  }

  method DecodeResponseFrom(buf: bytes) returns (r: Result<Message>)
    ensures r == DecodeResponse(buf)
  {
    hide Messages.DecodeString, ValidUsername;
    var cur := new Cursor(buf);
    var user :- cur.DecodeString();
    var ok := IsValidUsername(user);
    if !ok {
      return Err(BadUsername);
    }
    var hash :- cur.DecodeString();
    var nonce: bytes := [];
    if |buf| - cur.pos >= 8 {
      ghost var start := cur.pos;
      for i := 0 to 8
        invariant cur.pos == start + i && nonce == buf[start..cur.pos]
      {
        nonce := nonce + [buf[cur.pos]];
        cur.pos := cur.pos + 1;
      }
    }
    return Ok(Response(user, hash, nonce));
  }

  method DecodePollFrom(buf: bytes) returns (r: Result<Message>)
    ensures r == DecodePoll(buf)
  {
    hide Messages.DecodeString, Messages.DecodeLong, ValidUsername;
    var cur := new Cursor(buf);
    var user :- cur.DecodeString();
    var ok := IsValidUsername(user);
    if !ok {
      return Err(BadUsername);
    }
    var time :- cur.DecodeLong();
    return Ok(Poll(user, time));
  }

  method DecodeChallengeFrom(buf: bytes) returns (r: Result<Message>)
    ensures r == DecodeChallenge(buf)
  {
    if |buf| < CHALLENGE_LENGTH {
      return Err(BadChallenge);
    }
    var challenge: bytes := [];
    for i := 0 to CHALLENGE_LENGTH
      invariant challenge == buf[..i]
    {
      challenge := challenge + [buf[i]];
    }
    return Ok(Challenge(challenge));
  }

  /** The switch of decode: the constructor for the type byte. */
  method DecodeBody(type_: byte, buf: bytes, stale: Memory) returns (r: Result<Message>)
    ensures r == DecodePayload(type_, buf, stale)
  {
    hide DecodeLogin, DecodePollResponse;
    if type_ == 0 {
      var login := new SPChatLogin();
      var _ :- login.DecodeFrom(buf);
      return Ok(login.Value());
    } else if type_ == 1 {
      r := DecodeChallengeFrom(buf);
    } else if type_ == 3 {
      return DecodeAck(buf);
    } else if type_ == 2 {
      r := DecodeResponseFrom(buf);
    } else if type_ == 5 {
      r := DecodePollFrom(buf);
    } else if type_ == 6 {
      var response := new SPChatPollResponse([], [], 0, 0);
      var _ :- response.DecodeFrom(buf, stale);
      return Ok(response.Value());
    } else {
      return Err(NoSuchType);
    }
  }

  /** The result of the first read is ignored: with less than a header to read, the rest is left over memory. */
  method Decode(sock: TcpSocket, stale: Memory) returns (r: Result<Message>)
    requires sock.Valid()
    modifies sock
    ensures sock.Valid() && sock.Broken() == old(sock.Broken())
    ensures old(|sock.Stream()|) >= TOTAL_HEADER_LENGTH ==>
              var d := DecodeFrame(old(sock.Stream()), old(sock.Broken()), stale);
              r == d.0 && sock.Stream() == old(sock.Stream())[d.1..]
    ensures old(|sock.Stream()|) < TOTAL_HEADER_LENGTH && old(sock.Broken()) ==> r == Err(ReceiveFailed)
  {
    hide DecodePayload, Readable, Fails;
    ghost var stream := sock.Stream();
    var headerArray := new byte[TOTAL_HEADER_LENGTH];
    var _ :- sock.RecvFully(headerArray, TOTAL_HEADER_LENGTH);
    var header := headerArray[..];
    assert |stream| >= TOTAL_HEADER_LENGTH ==>
        && header == stream[..TOTAL_HEADER_LENGTH]
        && header[..HEADER_LENGTH] == stream[..HEADER_LENGTH]
        && header[LENGTH_POSITION..] == stream[LENGTH_POSITION..TOTAL_HEADER_LENGTH];
    var len :- DecodeHeader(header);
    if len < 0 || len > INT_MAX {
      return Err(Undefined);
    }
    var buf := new byte[len];
    var actualLen :- sock.RecvFully(buf, len);
    if actualLen != len {
      return Err(TooShort);
    }
    r := DecodeBody(header[TYPE_POSITION], buf[..], stale);
    assert |stream| >= TOTAL_HEADER_LENGTH ==>
        buf[..] == stream[TOTAL_HEADER_LENGTH..TOTAL_HEADER_LENGTH + len];
  }

  // ---------- Framing ----------

  /** What is decoded of a frame is what its payload is decoded to, whatever follows. */
  lemma FrameIsTaken(m: Message, rest: bytes, broken: bool, stale: Memory)
    requires |Payload(m)| <= INT_MAX
    ensures |Frame(m) + rest| >= TOTAL_HEADER_LENGTH
    ensures !Blocked(Frame(m) + rest)
    ensures DecodeFrame(Frame(m) + rest, broken, stale) == (DecodePayload(TypeByte(m), Payload(m), stale), |Frame(m)|)
    ensures (Frame(m) + rest)[|Frame(m)|..] == rest
  {
    hide BigEndian, DecodePayload, Payload;
    var s := Frame(m) + rest;
    var p := Payload(m);
    assert s[..HEADER_LENGTH] == HEADER;
    assert s[TYPE_POSITION] == TypeByte(m);
    assert s[LENGTH_POSITION..TOTAL_HEADER_LENGTH] == BigEndian(|p|, 8);
    assert ReadInt64(BigEndian(|p|, 8)) == |p| by {
      Int64Codec(BigEndian(|p|, 8), |p|);
    }
    assert s[TOTAL_HEADER_LENGTH..TOTAL_HEADER_LENGTH + |p|] == p;
  }

  /** On a stream that goes on, decode waits here for more bytes. */
  predicate Blocked(s: bytes) {
    || |s| < TOTAL_HEADER_LENGTH
    || (s[..HEADER_LENGTH] == HEADER
        && var len := ReadInt64(s[LENGTH_POSITION..TOTAL_HEADER_LENGTH]);
           0 <= len <= INT_MAX && |s| - TOTAL_HEADER_LENGTH < len)
  }

  /** A frame cut off behind its header is no message: the stream ends too early, or in an error. */
  lemma FrameCutOff(m: Message, n: nat, broken: bool, stale: Memory)
    requires |Payload(m)| <= INT_MAX && TOTAL_HEADER_LENGTH <= n < |Frame(m)|
    ensures DecodeFrame(Frame(m)[..n], broken, stale) == (Err(if broken then ReceiveFailed else TooShort), n)
  {
    hide BigEndian, DecodePayload, Payload;
    var s, p := Frame(m)[..n], Payload(m);
    assert s[..HEADER_LENGTH] == HEADER;
    assert s[LENGTH_POSITION..TOTAL_HEADER_LENGTH] == BigEndian(|p|, 8);
    Int64Codec(BigEndian(|p|, 8), |p|);
  }

  /** Nothing but a header starts a message. */
  lemma OtherHeaderRefused(s: bytes, broken: bool, stale: Memory)
    requires |s| >= TOTAL_HEADER_LENGTH && s[..10] != [83, 80, 67, 104, 97, 116, 47, 49, 46, 48]
    ensures DecodeFrame(s, broken, stale) == (Err(BadHeader), 19)
  {
    HeaderBytes();
  }

  /** A message is taken whole from the front of any stream exactly when every setter accepts it. */
  lemma FrameDecodes(m: Message, rest: bytes, broken: bool, stale: Memory)
    requires |Payload(m)| <= INT_MAX
    ensures DecodeFrame(Frame(m) + rest, broken, stale) == (Ok(m), TOTAL_HEADER_LENGTH + |Payload(m)|)
      <==> Fine(m, stale)
  {
    hide DecodePayload, Fine, Payload, DecodeFrame;
    FrameIsTaken(m, rest, broken, stale);
    RoundTrip(m, stale);
  }

  predicate Sendable(m: Message, stale: Memory) {
    Fine(m, stale) && |Payload(m)| <= INT_MAX
  }

  lemma NextFrame(m: Message, tail: bytes, broken: bool, stale: Memory)
    requires Sendable(m, stale)
    ensures |Frame(m) + tail| >= TOTAL_HEADER_LENGTH
    ensures DecodeFrame(Frame(m) + tail, broken, stale) == (Ok(m), |Frame(m)|)
    ensures (Frame(m) + tail)[|Frame(m)|..] == tail
  {
    hide Payload, DecodeFrame;
    FrameDecodes(m, tail, broken, stale);
  }

  /**
   The messages that `n` calls of decode return, as long as all succeed, and the bytes they leave; the first call is
   number `k`.
   */
  function DecodeStream(s: bytes, n: nat, k: nat, broken: bool, stale: nat -> Memory): Result<(seq<Message>, bytes)> {
    if n == 0 then Ok(([], s))
    else if |s| < TOTAL_HEADER_LENGTH then Err(TooShort)
    else
      var d := DecodeFrame(s, broken, stale(k));
      var m :- d.0;
      var ms :- DecodeStream(s[d.1..], n - 1, k + 1, broken, stale);
      Ok(([m] + ms.0, ms.1))
  }

  predicate AllSendable(ms: seq<Message>, k: nat, stale: nat -> Memory) {
    forall i :: 0 <= i < |ms| ==> Sendable(ms[i], stale(k + i))
  }

  lemma AllSendableSplit(ms: seq<Message>, k: nat, stale: nat -> Memory)
    requires ms != [] && AllSendable(ms, k, stale)
    ensures Sendable(ms[0], stale(k)) && AllSendable(ms[1..], k + 1, stale)
  {
    hide Sendable;
    assert Sendable(ms[0], stale(k + 0));
    forall i | 0 <= i < |ms[1..]|
      ensures Sendable(ms[1..][i], stale(k + 1 + i))
    {
      assert Sendable(ms[i + 1], stale(k + (i + 1)));
    }
  }

  /** Messages never run into each other: a concatenation of frames is read back as that list and the rest. */
  lemma {:induction false} Framing(ms: seq<Message>, rest: bytes, k: nat, broken: bool, stale: nat -> Memory)
    requires AllSendable(ms, k, stale)
    ensures DecodeStream(Frames(ms) + rest, |ms|, k, broken, stale) == Ok((ms, rest))
  {
    hide DecodeFrame, Sendable, Frame, AllSendable;
    if ms == [] {
      assert Frames(ms) + rest == rest;
    } else {
      FramesSplit(ms, rest);
      AllSendableSplit(ms, k, stale);
      NextFrame(ms[0], Frames(ms[1..]) + rest, broken, stale(k));
      Framing(ms[1..], rest, k + 1, broken, stale);
      assert ms == [ms[0]] + ms[1..];
    }
  }

  /** However TCP cuts the stream, the calls of decode return the messages sent and stop behind the last one. */
  method ReceiveAll(sock: TcpSocket, n: nat, stale: nat -> Memory, ghost sent: seq<Message>, ghost rest: bytes)
    returns (received: seq<Message>)
    requires sock.Valid() && n == |sent|
    requires sock.Stream() == Frames(sent) + rest
    requires AllSendable(sent, 0, stale)
    modifies sock
    ensures received == sent && sock.Stream() == rest
  {
    hide DecodeFrame, Sendable, Frame, Readable, Fails;
    received := [];
    for i := 0 to n
      invariant sock.Valid()
      invariant received == sent[..i]
      invariant sock.Stream() == Frames(sent[i..]) + rest
    {
      ghost var m, after := sent[i], sent[i + 1..];
      assert sent[i..][0] == m && sent[i..][1..] == after;
      FramesSplit(sent[i..], rest);
      assert Sendable(sent[i], stale(0 + i));
      NextFrame(m, Frames(after) + rest, sock.Broken(), stale(i));
      var r := Decode(sock, stale(i));
      received := received + [r.value];
    }
  }
}
