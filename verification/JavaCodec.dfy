/** The Java client's messages: constructors with their checks, the lengths they announce, the bytes they write. */
module JavaCodec {
  import opened Wrappers
  import opened Bytes
  import opened Messages
  import opened Cbc

  const MAX_UNAME_LEN := 64
  const MAX_MSG_LEN := 15
  const MAX_MSGS := 500

  /** java.io.DataOutputStream: integers go out most significant byte first. */
  class DataOutput {
    var written: bytes

    constructor ()
      ensures written == []
    {
      written := [];
    }

    method Write(bs: bytes)
      modifies this
      ensures written == old(written) + bs
    {
      written := written + bs;
    }

    method WriteByte(b: byte)
      modifies this
      ensures written == old(written) + [b]
    {
      written := written + [b];
    }

    method WriteInt(n: int)
      modifies this
      ensures written == old(written) + BigEndian(n, 4)
    {
      written := written + BigEndian(n, 4);
    }

    method WriteLong(n: int)
      modifies this
      ensures written == old(written) + BigEndian(n, 8)
    {
      written := written + BigEndian(n, 8);
    }
  }

  /** System.currentTimeMillis: some time passes before each reading, and none passes backwards. */
  class Clock {
    var now: int64

    constructor (now: int64)
      ensures this.now == now
    {
      this.now := now;
    }

    method CurrentTimeMillis() returns (t: int64)
      modifies this
      ensures old(now) <= now == t
    {
      var passed: nat :| now + passed < 0x8000_0000_0000_0000;
      now := now + passed;
      t := now;
    }
  }

  /** A MsgMessage as its constructor leaves it. */
  datatype Piece = Piece(
    sender: string,
    receiver: string,
    message: string,
    encrypted: bytes,
    lenDecrypted: int64,
    number: int32,
    total: int32)

  /** The record a piece is written as: the time is the one at which it is written. */
  function OnWire(p: Piece, time: int64): Record {
    Record(Ascii(p.sender), Ascii(p.receiver), p.encrypted, p.lenDecrypted, p.number, p.total, time)
  }

  /**
   Encrypts one text. The loop throws away what it encrypts and hands the cipher end indices for lengths:
   a text over one block ends in the cipher's exception, an empty text is not encrypted at all. The result
   is the encryption of the text exactly for lengths 1 to 16.
   */
  method DoEncryption(cipher: EncryptingCipher, message: string) returns (r: Result<bytes>)
    requires cipher.Fresh()
    modifies cipher
    ensures r.Ok? ==> cipher.Fresh()
    ensures r == Ok(Encrypt(cipher.setup.c, cipher.setup.key, cipher.setup.iv, Ascii(message)))
        <==> 1 <= |message| <= BLOCK
    ensures |message| == 0 ==> r == Ok([])
    ensures |message| > BLOCK ==> r == Err(IllegalArgument)
  {
    var b: bytes := [];
    var chunk := Ascii(message);
    var write := 0;
    while write < |chunk| - BLOCK
      invariant 0 <= write
      invariant |chunk| > BLOCK ==> write < |chunk|
      invariant write == 0 ==> cipher.Fresh()
      invariant |chunk| <= BLOCK ==> write == 0
    {
      var discarded := cipher.Update(chunk, write, write + BLOCK);
      if discarded.None? {
        return Err(IllegalArgument);
      }
      write := write + BLOCK;
    }
    if write < |chunk| {
      assert cipher.Fresh() ==> cipher.Input(chunk, 0, |chunk|) == chunk;
      var last := cipher.DoFinal(chunk, write, |chunk|);
      if last.None? {
        return Err(IllegalArgument);
      }
      b := last.value;
    }
    return Ok(b);
  }

  method NewMsgMessage(senderUsernameLength: int, senderUsername: string, receiverUsernameLength: int,
                       receiverUsername: string, message: string, messageLength: int64, messageNumber: int32,
                       totalMessages: int32, timestamp: int64, encrypt: EncryptingCipher, clock: Clock)
    returns (r: Result<Piece>)
    requires encrypt.Fresh()
    modifies encrypt, clock
    ensures clock.now >= old(clock.now)
    ensures r.Ok? ==> encrypt.Fresh()
    ensures && senderUsernameLength == |senderUsername| <= MAX_UNAME_LEN
            && receiverUsernameLength == |receiverUsername| <= MAX_UNAME_LEN
            && messageLength == |message| <= MAX_MSG_LEN
            && 0 < messageNumber <= totalMessages
            && timestamp <= old(clock.now)
            ==> r.Ok?
    ensures r.Ok? ==>
              && senderUsernameLength == |senderUsername| <= MAX_UNAME_LEN
              && receiverUsernameLength == |receiverUsername| <= MAX_UNAME_LEN
              && messageLength == |message| <= MAX_MSG_LEN
              && 0 < messageNumber <= totalMessages
              && timestamp <= clock.now
              && r.value == Piece(senderUsername, receiverUsername, message,
                                  if message == "" then []
                                  else Encrypt(encrypt.setup.c, encrypt.setup.key, encrypt.setup.iv, Ascii(message)),
                                  messageLength, messageNumber, totalMessages)
  {
    if 0 > senderUsernameLength || MAX_UNAME_LEN < senderUsernameLength {
      return Err(BadField);
    }
    if senderUsernameLength != |senderUsername| {
      return Err(BadField);
    }
    if 0 > receiverUsernameLength || MAX_UNAME_LEN < receiverUsernameLength {
      return Err(BadField);
    }
    if receiverUsernameLength != |receiverUsername| {
      return Err(BadField);
    }
    if 0 > messageLength || MAX_MSG_LEN < messageLength {
      return Err(BadField);
    }
    if messageLength != |message| {
      return Err(BadField);
    }
    var encryption := DoEncryption(encrypt, message);
    var encrypted: bytes;
    match encryption {
      case Err(error) => return Err(error);
      case Ok(b) => encrypted := b;
    }
    if totalMessages < messageNumber {
      return Err(BadField);
    }
    if 0 >= totalMessages || 0 >= messageNumber {
      return Err(BadField);
    }
    var now := clock.CurrentTimeMillis();
    if timestamp > now {
      return Err(BadField);
    }
    return Ok(Piece(senderUsername, receiverUsername, message, encrypted, messageLength, messageNumber, totalMessages));
  }

  method EncodePiece(p: Piece, out: DataOutput, clock: Clock)
    modifies out, clock
    ensures clock.now >= old(clock.now)
    ensures out.written == old(out.written) + RecordBytes(OnWire(p, clock.now))
  {
    hide BigEndian, RecordBytes;
    ghost var before := out.written;
    out.WriteInt(|p.sender|);
    out.Write(Ascii(p.sender));
    out.WriteInt(|p.receiver|);
    out.Write(Ascii(p.receiver));
    out.WriteInt(|p.encrypted|);
    out.Write(p.encrypted);
    out.WriteLong(p.lenDecrypted);
    out.WriteInt(p.number);
    out.WriteInt(p.total);
    var now := clock.CurrentTimeMillis();
    out.WriteLong(now);
    RecordInSteps(before, OnWire(p, now));
  }

  lemma RecordInSteps(before: bytes, r: Record)
    ensures before + RecordBytes(r)
         == before + BigEndian(|r.sender|, 4) + r.sender + BigEndian(|r.receiver|, 4) + r.receiver
            + BigEndian(|r.message|, 4) + r.message
            + BigEndian(r.decryptLen, 8) + BigEndian(r.number, 4) + BigEndian(r.total, 4) + BigEndian(r.time, 8)
  {
    hide BigEndian;
  }

  /** The pieces as records, whatever the times at which they were written. */
  ghost predicate AreOnWire(pieces: seq<Piece>, records: seq<Record>, since: int64) {
    && |records| == |pieces|
    && forall i :: 0 <= i < |pieces| ==>
        records[i].time >= since && records[i] == OnWire(pieces[i], records[i].time)
  }

  function SummedLength(pieces: seq<Piece>): nat {
    if pieces == [] then 0
    else |pieces[0].sender| + |pieces[0].receiver| + |pieces[0].encrypted| + 8 * 2 + 4 * 5 + SummedLength(pieces[1..])
  }

  /** The sum over the list is the length the list will have, at whatever times it is written. */
  lemma {:induction false} SummedLengthIsWritten(pieces: seq<Piece>, records: seq<Record>, since: int64)
    requires AreOnWire(pieces, records, since)
    ensures SummedLength(pieces) == |RecordsBytes(records)|
  {
    hide BigEndian;
    if pieces != [] {
      assert records[0] == OnWire(pieces[0], records[0].time);
      SummedLengthIsWritten(pieces[1..], records[1..], since);
    }
  }

  method GetLen(newMessages: seq<Piece>) returns (ret: nat)
    ensures ret == SummedLength(newMessages)
  {
    ret := 0;
    for i := 0 to |newMessages|
      invariant ret + SummedLength(newMessages[i..]) == SummedLength(newMessages)
    {
      var m := newMessages[i];
      assert newMessages[i..][1..] == newMessages[i + 1..];
      ret := ret + |m.sender| + |m.receiver| + |m.encrypted| + 8 * 2 + 4 * 5;
    }
  }

  /** A list of pieces under construction and under way: the announced length fits what is written after it. */
  method SendPollResponse(username: string, listNumber: int32, totalLists: int32, pieces: seq<Piece>,
                          out: DataOutput, clock: Clock)
    returns (r: Result<()>, ghost records: seq<Record>)
    modifies out, clock
    ensures clock.now >= old(clock.now)
    ensures r.Ok? <==> |username| <= MAX_UNAME_LEN && 0 < listNumber <= totalLists && pieces != []
    ensures r.Ok? ==>
              && AreOnWire(pieces, records, old(clock.now))
              && out.written == old(out.written) + Frame(PollResponse(Ascii(username), listNumber, totalLists, records))
    ensures r.Err? ==> out.written == old(out.written)
  {
    hide BigEndian, RecordBytes, RecordsBytes, FrameHeader, Frame, Payload, StringBytes;
    records := [];
    var bodyLength := GetLen(pieces);
    var messageLen := 4 * 4 + |username| + bodyLength;
    if MAX_UNAME_LEN < |username| || listNumber > totalLists || 0 >= listNumber || 0 >= totalLists || pieces == [] {
      r := Err(BadField);
      return;
    }
    ghost var before := out.written;
    WriteHeader(out, 6, messageLen);
    out.WriteInt(|username|);
    out.Write(Ascii(username));
    out.WriteInt(listNumber);
    out.WriteInt(totalLists);
    out.WriteInt(|pieces|);
    records := EncodePieces(pieces, out, clock);
    SummedLengthIsWritten(pieces, records, old(clock.now));
    ghost var m := PollResponse(Ascii(username), listNumber, totalLists, records);
    ListSize(m);
    FrameOfList(before, m, messageLen);
    NameWritten(before + FrameHeader(6, messageLen), Ascii(username));
    r := Ok(());
  }

  lemma ListSize(m: Message)
    requires m.PollResponse?
    ensures |Payload(m)| == 16 + |m.user| + |RecordsBytes(m.records)|
  {
    hide BigEndian, RecordsBytes;
  }

  lemma NameWritten(before: bytes, name: bytes)
    ensures before + StringBytes(name) == before + BigEndian(|name|, 4) + name
  {
    hide BigEndian;
  }

  method EncodePieces(pieces: seq<Piece>, out: DataOutput, clock: Clock) returns (ghost records: seq<Record>)
    modifies out, clock
    ensures clock.now >= old(clock.now)
    ensures AreOnWire(pieces, records, old(clock.now))
    ensures out.written == old(out.written) + RecordsBytes(records)
  {
    hide RecordBytes, AreOnWire, OnWire;
    records := [];
    NoneOnWire(clock.now);
    for i := 0 to |pieces|
      invariant clock.now >= old(clock.now)
      invariant AreOnWire(pieces[..i], records, old(clock.now))
      invariant out.written == old(out.written) + RecordsBytes(records)
    {
      EncodePiece(pieces[i], out, clock);
      ghost var record := OnWire(pieces[i], clock.now);
      RecordsAppend(records, record);
      OneMoreOnWire(pieces[..i], records, pieces[i], clock.now, old(clock.now));
      records := records + [record];
      assert pieces[..i + 1] == pieces[..i] + [pieces[i]];
    }
    assert pieces[..|pieces|] == pieces;
  }

  lemma NoneOnWire(since: int64)
    ensures AreOnWire([], [], since)
  {
  }

  lemma OneMoreOnWire(pieces: seq<Piece>, records: seq<Record>, p: Piece, time: int64, since: int64)
    requires AreOnWire(pieces, records, since) && time >= since
    ensures AreOnWire(pieces + [p], records + [OnWire(p, time)], since)
  {
  }

  lemma {:induction false} RecordsAppend(rs: seq<Record>, r: Record)
    ensures RecordsBytes(rs + [r]) == RecordsBytes(rs) + RecordBytes(r)
  {
    hide RecordBytes;
    if rs == [] {
      assert [] + [r] == [r];
    } else {
      assert (rs + [r])[1..] == rs[1..] + [r];
      RecordsAppend(rs[1..], r);
    }
  }

  method WriteHeader(out: DataOutput, messageType: byte, messageLen: int)
    modifies out
    ensures out.written == old(out.written) + FrameHeader(messageType, messageLen)
  {
    hide BigEndian;
    out.Write(HEADER);
    out.WriteByte(messageType);
    out.WriteLong(messageLen);
  }

  method SendPoll(username: string, timestamp: int64, out: DataOutput, clock: Clock) returns (r: Result<()>)
    modifies out, clock
    ensures clock.now >= old(clock.now)
    ensures r.Ok? ==> out.written == old(out.written) + Frame(Poll(Ascii(username), timestamp))
    ensures r.Ok? <==> |username| <= MAX_UNAME_LEN && 0 <= timestamp <= clock.now
    ensures r.Err? ==> out.written == old(out.written)
  {
    hide BigEndian, FrameHeader;
    var messageLen := 4 + |username| + 8;
    var now := clock.CurrentTimeMillis();
    if MAX_UNAME_LEN < |username| || timestamp > now || 0 > timestamp {
      return Err(BadField);
    }
    WriteHeader(out, 5, messageLen);
    out.WriteInt(|username|);
    out.Write(Ascii(username));
    out.WriteLong(timestamp);
    assert Payload(Poll(Ascii(username), timestamp))
        == BigEndian(|username|, 4) + Ascii(username) + BigEndian(timestamp, 8);
    return Ok(());
  }

  /** The nonce goes out as a long; its bytes are the ones hashed. */
  method SendResponse(username: string, hash: string, nonce: int64, out: DataOutput) returns (r: Result<()>)
    modifies out
    ensures r.Ok? <==> |username| <= MAX_UNAME_LEN
    ensures r.Ok? ==>
              out.written == old(out.written) + Frame(Response(Ascii(username), Ascii(hash), BigEndian(nonce, 8)))
    ensures r.Err? ==> out.written == old(out.written)
  {
    hide BigEndian, FrameHeader;
    var messageLen := 4 * 2 + |username| + |hash| + 8;
    if MAX_UNAME_LEN < |username| {
      return Err(BadField);
    }
    WriteHeader(out, 2, messageLen);
    out.WriteInt(|username|);
    out.Write(Ascii(username));
    out.WriteInt(|hash|);
    out.Write(Ascii(hash));
    out.WriteLong(nonce);
    assert Payload(Response(Ascii(username), Ascii(hash), BigEndian(nonce, 8)))
        == BigEndian(|username|, 4) + Ascii(username) + (BigEndian(|hash|, 4) + Ascii(hash)) + BigEndian(nonce, 8);
    return Ok(());
  }

  function KeyLength(k: Key): nat {
    match k
    case NoKey => 0
    case PublicKey(_) => ASYMMETRIC_LENGTH
    case WrappedKey(_) => ENCRYPTED_SYM_LENGTH
  }

  /** What the encoder of a login writes: the length it announces is that of the key type. */
  function LoginBytes(username: string, key: Key): bytes {
    FrameHeader(0, 4 + |username| + 1 + KeyLength(key))
    + (StringBytes(Ascii(username)) + [KeyByte(key)] + KeyBytes(key))
  }

  /** Unlike the server, the client writes a wrapped key. */
  method SendLogin(username: string, key: Key, out: DataOutput) returns (r: Result<()>)
    modifies out
    ensures r.Ok? <==> |username| <= MAX_UNAME_LEN
    ensures out.written == old(out.written) + if r.Ok? then LoginBytes(username, key) else []
  {
    hide BigEndian, FrameHeader;
    var messageLen := 4 + |username| + 1 + KeyLength(key);
    if MAX_UNAME_LEN < |username| {
      return Err(BadField);
    }
    ghost var before := out.written;
    WriteHeader(out, 0, messageLen);
    out.WriteInt(|username|);
    out.Write(Ascii(username));
    out.WriteByte(KeyByte(key));
    if key.PublicKey? || key.WrappedKey? {
      out.Write(KeyBytes(key));
    }
    assert before + LoginBytes(username, key)
        == before + FrameHeader(0, messageLen) + BigEndian(|username|, 4) + Ascii(username) + [KeyByte(key)]
           + KeyBytes(key);
    return Ok(());
  }

  /** These bytes are the frame of the login exactly if the key has the length announced for its type. */
  lemma LoginIsFrame(username: string, key: Key)
    requires |username| <= MAX_UNAME_LEN && |KeyBytes(key)| <= INT_MAX  // a Java array
    ensures LoginBytes(username, key) == Frame(Login(Ascii(username), key)) <==> |KeyBytes(key)| == KeyLength(key)
  {
    hide BigEndian, FrameHeader;
    var body := StringBytes(Ascii(username)) + [KeyByte(key)] + KeyBytes(key);
    assert [] + (FrameHeader(0, 4 + |username| + 1 + KeyLength(key)) + body) == LoginBytes(username, key);
    assert [] + (FrameHeader(0, |body|) + body) == Frame(Login(Ascii(username), key));
    HeaderTellsLength(0, 4 + |username| + 1 + KeyLength(key), |body|, [], body);
  }
}
