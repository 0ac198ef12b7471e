/** The client's reader thread: the header, and behind it the constructor for the type. */
module JavaDecoder {
  import opened Wrappers
  import opened Bytes
  import opened Messages
  import opened Cbc
  import opened JavaCodec
  import opened JavaReader

  const HEADER_TEXT := "SPChat/1.0"
  const ASYMMETRIC: byte := 1
  const DEFAULT: byte := 3
  const INVALID_ERROR := 99

  /** A message as the client holds it; of a type it has no handler for, only the header has been read. */
  datatype Incoming =
    | AckMessage(error: nat, sender: int)
    | ChallengeMessage(challenge: bytes)
    | LoginMessage(username: string, keyType: byte, publicKeyStr: string)
    | PollResponseMessage(username: string, newMessages: seq<Shown>)
    | NotExpected(messageType: byte)

  /** The type and the announced length, which nothing behind the header makes use of. */
  function HeaderOf(s: bytes): Result<(byte, int64)> {
    if |s| < TOTAL_HEADER_LENGTH || s[..10] != HEADER then Err(BadField)
    else
      var length := ReadInt64(s[11..19]);
      if 0 > length then Err(BadField) else Ok((s[10], length))
  }

  /** The ten letters, then the type, then a length that is not negative; nothing else is a header. */
  lemma HeaderIs(s: bytes, type_: byte, length: int64)
    requires |s| >= TOTAL_HEADER_LENGTH
    ensures HeaderOf(s) == Ok((type_, length))
       <==> && s[..10] == [83, 80, 67, 104, 97, 116, 47, 49, 46, 48] && s[10] == type_
            && s[11..19] == BigEndian(length, 8) && length >= 0
  {
    hide BigEndian, ReadInt64;
    HeaderBytes();
    Int64Codec(s[11..19], length);
  }

  lemma HeaderReadsAs(field: bytes)
    ensures FromAscii(field) == HEADER_TEXT <==> field == HEADER
  {
    OnlyAsciiReadsAs(field, HEADER_TEXT);
  }

  method ReadHeader(input: DataInput) returns (r: Result<(byte, int64)>)
    modifies input`left
    ensures r == HeaderOf(old(input.left))
    ensures r.Ok? ==> input.left == old(input.left)[TOTAL_HEADER_LENGTH..]
  {
    hide Ascii, FromAscii, ReadInt64;
    ghost var s := input.left;
    var field :- input.ReadFully(10);
    var strg := FromAscii(field);
    HeaderReadsAs(field);
    if strg != HEADER_TEXT {
      return Err(BadField);
    }
    var messageType :- input.ReadFully(1);
    assert input.left == s[11..];
    assert |s| >= 19 ==> s[11..][..8] == s[11..19] && s[11..][8..] == s[19..];
    var messageLen :- input.ReadLong();
    if 0 > messageLen {
      return Err(BadField);
    }
    return Ok((messageType[0], messageLen));
  }

  /** The header of a frame is read as what it says, whatever follows. */
  lemma HeaderOfFrame(m: Message, rest: bytes)
    requires |Payload(m)| < 0x8000_0000_0000_0000
    ensures HeaderOf(Frame(m) + rest) == Ok((TypeByte(m), |Payload(m)|))
    ensures |Frame(m) + rest| >= TOTAL_HEADER_LENGTH
    ensures (Frame(m) + rest)[TOTAL_HEADER_LENGTH..] == Payload(m) + rest
  {
    hide BigEndian, Payload, Ascii;
    var s, n := Frame(m) + rest, |Payload(m)|;
    assert s[..10] == HEADER;
    assert s[10] == TypeByte(m);
    assert s[11..19] == BigEndian(n, 8);
    Int64Codec(BigEndian(n, 8), n);
  }

  /** The byte is signed: a shift to the right makes a negative one large, its remainder is not positive. */
  method ReadAck(input: DataInput) returns (r: Result<Incoming>)
    modifies input`left
    ensures if old(input.left) == [] then r == Err(BadField)
            else var b: int := old(input.left)[0];
                 && input.left == old(input.left)[1..]
                 && r == Ok(AckMessage(if b / 2 <= 6 then b / 2 else INVALID_ERROR,
                                       if b < 128 then b % 2 else -(b % 2)))
  {
    var field :- input.ReadFully(1);
    var b: int := field[0];
    var errSender := if b < 128 then b else b - 256;
    var findError := (if errSender < 0 then errSender + 0x1_0000_0000 else errSender) / 2;
    var sender := if errSender < 0 then -(-errSender % 2) else errSender % 2;
    r := Ok(AckMessage(if findError <= 6 then findError else INVALID_ERROR, sender));
  }

  method ReadChallenge(input: DataInput) returns (r: Result<Incoming>)
    modifies input`left
    ensures if |old(input.left)| < CHALLENGE_LENGTH then r == Err(BadField)
            else && r == Ok(ChallengeMessage(old(input.left)[..CHALLENGE_LENGTH]))
                 && input.left == old(input.left)[CHALLENGE_LENGTH..]
  {
    var challenge: bytes := [];
    for i := 0 to CHALLENGE_LENGTH
      invariant i <= |old(input.left)|
      invariant input.left == old(input.left)[i..] && challenge == old(input.left)[..i]
    {
      var b :- input.ReadFully(1);
      challenge := challenge + b;
    }
    return Ok(ChallengeMessage(challenge));
  }

  /** What is to be read is the login `m` behind its header; a public key has the length its type announces. */
  predicate ExpectedLogin(stream: bytes, m: Message, rest: bytes) {
    && m.Login? && |m.user| <= INT_MAX && stream == Payload(m) + rest
    && (m.key.PublicKey? ==> |m.key.pem| == ASYMMETRIC_LENGTH)
  }

  /**
   The key text is read for a public key only, and has to be one: `isKey` stands for the decoding of the text. A
   wrapped key would stay in the stream.
   */
  method ReadLogin(input: DataInput, isKey: string -> bool, ghost m: Message, ghost rest: bytes)
      returns (r: Result<Incoming>)
    modifies input`left
    ensures ExpectedLogin(old(input.left), m, rest) ==>
              && (r.Ok? <==> |m.user| <= MAX_UNAME_LEN && (m.key.PublicKey? ==> isKey(FromAscii(m.key.pem))))
              && (r.Ok? ==>
                    && r.value == LoginMessage(FromAscii(m.user), KeyByte(m.key),
                                               if m.key.PublicKey? then FromAscii(m.key.pem) else "")
                    && input.left == if m.key.WrappedKey? then m.key.wrapped + rest else rest)
  {
    hide StringBytes, FromAscii;
    ghost var e := if m.Login? then m else Login([], NoKey);
    ghost var tail := KeyBytes(e.key) + rest;
    if ExpectedLogin(input.left, m, rest) {
      assert input.left == StringBytes(e.user) + ([KeyByte(e.key)] + tail);
    }
    var username :- ReadName(input, e.user, [KeyByte(e.key)] + tail);
    FrontIf([KeyByte(e.key)], tail, input.left);
    var field :- input.ReadFully(1);
    var keyType := field[0];
    // the types are signed bytes
    if DEFAULT <= keyType < 128 {
      return Err(BadField);
    }
    if keyType == ASYMMETRIC {
      FrontIf(KeyBytes(e.key), rest, input.left);
      var publicKeyStr :- input.ReadFully(ASYMMETRIC_LENGTH);
      if !isKey(FromAscii(publicKeyStr)) {
        return Err(BadField);
      }
      return Ok(LoginMessage(FromAscii(username), keyType, FromAscii(publicKeyStr)));
    }
    return Ok(LoginMessage(FromAscii(username), keyType, ""));
  }

  /** The messages the client takes whole from the stream. */
  ghost predicate ForClient(m: Message, isKey: string -> bool, decrypt: DecryptingCipher, now: int64) {
    match m
    case Ack(_, _) => true
    case Challenge(challenge) => |challenge| == CHALLENGE_LENGTH
    case Login(user, key) =>
      && |user| <= MAX_UNAME_LEN && !key.WrappedKey?
      && (key.PublicKey? ==> |key.pem| == ASYMMETRIC_LENGTH && isKey(FromAscii(key.pem)))
    case PollResponse(user, listNum, totalList, records) =>
      && JavaReader.Readable(m) && |user| <= MAX_UNAME_LEN && 0 < listNum <= totalList <= MAX_LISTS
      && AllWhole(records) && AllAccepted(records, decrypt, now)
    case _ => false
  }

  ghost predicate IsRead(i: Incoming, m: Message, decrypt: DecryptingCipher) {
    match m
    case Ack(error, sender) => i == AckMessage(ErrorCode(error), if sender.Server? then 0 else 1)
    case Challenge(challenge) => i == ChallengeMessage(challenge)
    case Login(user, key) =>
      i == LoginMessage(FromAscii(user), KeyByte(key), if key.PublicKey? then FromAscii(key.pem) else "")
    case PollResponse(user, _, _, records) =>
      i.PollResponseMessage? && i.username == FromAscii(user) && Viewed(i.newMessages, records, decrypt)
    case _ => i == NotExpected(TypeByte(m))
  }

  predicate ExpectedFrame(stream: bytes, m: Message, rest: bytes) {
    |Payload(m)| <= INT_MAX && stream == Frame(m) + rest
  }

  /** The switch of the reader thread. */
  method ReadIncoming(input: DataInput, isKey: string -> bool, decrypt: DecryptingCipher, clock: Clock,
                      ghost m: Message, ghost rest: bytes)
    returns (r: Result<Incoming>)
    requires decrypt.Fresh()
    modifies input, decrypt, clock
    ensures clock.now >= old(clock.now)
    ensures r.Ok? ==> decrypt.Fresh()
    ensures old(input.short) ==> input.short
    ensures ExpectedFrame(old(input.left), m, rest) && !input.short
            && (ForClient(m, isKey, decrypt, old(clock.now)) || m.Response? || m.Poll?)
            ==>
              && r.Ok? && IsRead(r.value, m, decrypt)
              && input.left == if m.Response? || m.Poll? then Payload(m) + rest else rest
  {
    hide HeaderOf, Payload, Frame, FromAscii, JavaReader.Readable, AllAccepted, Viewed, AllWhole;
    ghost var expected := ExpectedFrame(input.left, m, rest)
        && (ForClient(m, isKey, decrypt, clock.now) || m.Response? || m.Poll?);
    if expected {
      HeaderOfFrame(m, rest);
      PayloadOf(m);
    }
    var header :- ReadHeader(input);
    var messageType := header.0;
    FrontIf(Payload(m), rest, input.left);
    if messageType == 3 {
      r := ReadAck(input);
    } else if messageType == 1 {
      r := ReadChallenge(input);
    } else if messageType == 0 {
      r := ReadLogin(input, isKey, m, rest);
    } else if messageType == 6 {
      var list :- ReadPollResponse(input, decrypt, clock, m, rest);
      r := Ok(PollResponseMessage(list.0, list.1));
    } else {
      r := Ok(NotExpected(messageType));
    }
  }

  lemma PayloadOf(m: Message)
    ensures m.Ack? ==> Payload(m) == [AckByte(m.error, m.sender)]
    ensures m.Challenge? ==> Payload(m) == m.challenge
    ensures m.Login? ==> |m.user| <= |Payload(m)|
  {
  }

  /**
   The reader thread on a whole stream: as long as no read is short, every frame the client understands is read as its
   message, and the thread stays in step with the stream, although it never uses an announced length.
   */
  method ReadAll(input: DataInput, n: nat, isKey: string -> bool, decrypt: DecryptingCipher, clock: Clock,
                 ghost sent: seq<Message>, ghost rest: bytes)
    returns (received: seq<Incoming>)
    requires decrypt.Fresh() && n == |sent| && input.left == Frames(sent) + rest
    requires forall i :: 0 <= i < |sent| ==>
        ForClient(sent[i], isKey, decrypt, clock.now)
        && |Payload(sent[i])| <= INT_MAX
    modifies input, decrypt, clock
    ensures old(input.short) ==> input.short
    ensures !input.short ==>
              && |received| == n && (forall i :: 0 <= i < n ==> IsRead(received[i], sent[i], decrypt))
              && input.left == rest && decrypt.Fresh()
  {
    hide Frame, Payload, ForClient, IsRead;
    received := [];
    for i := 0 to n
      invariant decrypt.Fresh() && clock.now >= old(clock.now)
      invariant old(input.short) ==> input.short
      invariant !input.short ==>
                  && |received| == i && (forall j :: 0 <= j < i ==> IsRead(received[j], sent[j], decrypt))
                  && input.left == Frames(sent[i..]) + rest
    {
      ghost var m, after := sent[i], sent[i + 1..];
      assert sent[i..][0] == m && sent[i..][1..] == after;
      FramesSplit(sent[i..], rest);
      LaterStill(m, isKey, decrypt, old(clock.now), clock.now);
      var r := ReadIncoming(input, isKey, decrypt, clock, m, Frames(after) + rest);
      if r.Err? {
        return;
      }
      received := received + [r.value];
    }
  }

  lemma LaterStill(m: Message, isKey: string -> bool, decrypt: DecryptingCipher, earlier: int64, now: int64)
    requires ForClient(m, isKey, decrypt, earlier) && earlier <= now
    ensures ForClient(m, isKey, decrypt, now) && !m.Response? && !m.Poll?
  {
    hide Plain;
  }

  /** A poll or a response would leave its payload in front of the reader, which is no header to it. */
  lemma PayloadIsNoHeader(m: Message, rest: bytes)
    requires (m.Poll? || m.Response?) && |m.user| <= MAX_UNAME_LEN
    ensures HeaderOf(Payload(m) + rest).Err?
  {
    hide BigEndian, Ascii;
    var s := Payload(m) + rest;
    SmallWidths();
    FirstByte(|m.user|, 4);
    assert s[0] == 0;
    HeaderStart();
    assert |s| >= TOTAL_HEADER_LENGTH ==> s[..10][0] == s[0];
  }

  lemma HeaderStart()
    ensures |HEADER| == 10 && HEADER[0] != 0
  {
    var text := "SPChat/1.0";
    assert HEADER[0] == Ascii(text)[0];
  }
}
