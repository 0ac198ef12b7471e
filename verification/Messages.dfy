/**
 The SPChat/1.0 messages, their wire format, and the server's decoding of them as functions of the
 bytes. `CppCodec` holds the server's own statements, proved to compute these functions.
 */
module Messages {
  import opened Wrappers
  import opened Bytes

  const HEADER: bytes := Ascii("SPChat/1.0")
  const TOTAL_HEADER_LENGTH := 19
  const ASYMMETRIC_LENGTH := 271
  const ENCRYPTED_SYM_LENGTH := 128
  const ASYMMETRIC_HEADER: bytes := Ascii("-----BEGIN PUBLIC KEY-----\n")
  const ASYMMETRIC_FOOTER: bytes := Ascii("-----END PUBLIC KEY-----\n")
  const ENDLINE: byte := 10
  const ASYMMETRIC_ENDLINE_POS: seq<nat> := [91, 156, 221, 246]
  const CHALLENGE_LENGTH := 8
  const MAX_MESSAGE_LENGTH := 500

  /** One entry of a poll response. */
  datatype Record = Record(
    sender: bytes,
    receiver: bytes,
    message: bytes,
    decryptLen: int64,
    number: int32,
    total: int32,
    time: int64)

  datatype Key = NoKey | PublicKey(pem: bytes) | WrappedKey(wrapped: bytes)

  datatype AckError = Success | InvalidType | InvalidPassword | Formatting | DefaultError | PasswordAuth

  datatype Party = Server | Client

  datatype Message =
    | Login(user: bytes, key: Key)
    | Challenge(challenge: bytes)
    | Response(user: bytes, hash: bytes, nonce: bytes)
    | Ack(error: AckError, sender: Party)
    | Poll(user: bytes, time: int64)
    | PollResponse(user: bytes, listNum: int32, totalList: int32, records: seq<Record>)

  predicate UsernameChar(c: byte) {
    || 'a' as int <= c <= 'z' as int
    || 'A' as int <= c <= 'Z' as int
    || '0' as int <= c <= '9' as int
    || c == '@' as int || c == '-' as int || c == '.' as int || c == '_' as int
  }

  predicate ValidUsername(name: bytes) {
    forall i :: 0 <= i < |name| ==> UsernameChar(name[i])
  }

  /** The layout the server demands of a public key: header line, newlines, footer line. */
  predicate PemLayout(key: bytes) {
    && |key| == ASYMMETRIC_LENGTH
    && key[..27] == ASYMMETRIC_HEADER
    && key[247..271] == ASYMMETRIC_FOOTER[..24]
    && forall i :: 0 <= i < 4 ==> key[ASYMMETRIC_ENDLINE_POS[i]] == ENDLINE
  }

  // ---------- Encoding ----------

  function StringBytes(s: bytes): bytes {
    BigEndian(|s|, 4) + s
  }

  function RecordBytes(r: Record): bytes {
    StringBytes(r.sender) + StringBytes(r.receiver) + StringBytes(r.message)
    + BigEndian(r.decryptLen, 8) + BigEndian(r.number, 4) + BigEndian(r.total, 4) + BigEndian(r.time, 8)
  }

  function RecordsBytes(rs: seq<Record>): bytes {
    if rs == [] then [] else RecordBytes(rs[0]) + RecordsBytes(rs[1..])
  }

  function KeyByte(k: Key): byte {
    match k
    case NoKey => 0
    case PublicKey(_) => 1
    case WrappedKey(_) => 2
  }

  function KeyBytes(k: Key): bytes {
    match k
    case NoKey => []
    case PublicKey(pem) => pem
    case WrappedKey(wrapped) => wrapped
  }

  function ErrorCode(e: AckError): nat {
    match e
    case Success => 0
    case InvalidType => 1
    case InvalidPassword => 2
    case Formatting => 3
    case DefaultError => 4
    case PasswordAuth => 5
  }

  function AckByte(e: AckError, s: Party): byte {
    2 * ErrorCode(e) + if s.Server? then 0 else 1
  }

  function Payload(m: Message): bytes {
    match m
    case Login(user, key) => StringBytes(user) + [KeyByte(key)] + KeyBytes(key)
    case Challenge(challenge) => challenge
    case Response(user, hash, nonce) => StringBytes(user) + StringBytes(hash) + nonce
    case Ack(error, sender) => [AckByte(error, sender)]
    case Poll(user, time) => StringBytes(user) + BigEndian(time, 8)
    case PollResponse(user, listNum, totalList, records) =>
      StringBytes(user) + BigEndian(listNum, 4) + BigEndian(totalList, 4)
      + BigEndian(|records|, 4) + RecordsBytes(records)
  }

  function TypeByte(m: Message): byte {
    match m
    case Login(_, _) => 0
    case Challenge(_) => 1
    case Response(_, _, _) => 2
    case Ack(_, _) => 3
    case Poll(_, _) => 5
    case PollResponse(_, _, _, _) => 6
  }

  function FrameHeader(type_: byte, length: int): (h: bytes)
    ensures |h| == TOTAL_HEADER_LENGTH
  {
    HEADER + [type_] + BigEndian(length, 8)
  }

  function Frame(m: Message): bytes {
    FrameHeader(TypeByte(m), |Payload(m)|) + Payload(m)
  }

  function Frames(ms: seq<Message>): bytes {
    if ms == [] then [] else Frame(ms[0]) + Frames(ms[1..])
  }

  /** The same message under a header with another length is another byte string. */
  lemma HeaderTellsLength(type_: byte, announced: int64, length: int64, before: bytes, body: bytes)
    ensures before + (FrameHeader(type_, announced) + body) == before + (FrameHeader(type_, length) + body)
      <==> announced == length
  {
    hide BigEndian;
    if before + (FrameHeader(type_, announced) + body) == before + (FrameHeader(type_, length) + body) {
      var one := before + (FrameHeader(type_, announced) + body);
      var two := before + (FrameHeader(type_, length) + body);
      assert one[|before| + 11..|before| + 19] == BigEndian(announced, 8);
      assert two[|before| + 11..|before| + 19] == BigEndian(length, 8);
      Int64Codec(BigEndian(announced, 8), announced);
      Int64Codec(BigEndian(announced, 8), length);
    }
  }

  lemma FramesSplit(ms: seq<Message>, rest: bytes)
    requires ms != []
    ensures Frames(ms) + rest == Frame(ms[0]) + (Frames(ms[1..]) + rest)
  {
    hide Frame;
  }

  lemma {:induction false} FramesAppend(ms: seq<Message>, m: Message)
    ensures Frames(ms + [m]) == Frames(ms) + Frame(m)
  {
    hide Frame;
    if ms == [] {
      assert [] + [m] == [m];
    } else {
      assert (ms + [m])[1..] == ms[1..] + [m];
      FramesAppend(ms[1..], m);
    }
  }

  lemma FrameOfList(before: bytes, m: Message, length: nat)
    requires m.PollResponse? && length == |Payload(m)|
    ensures before + Frame(m)
         == before + FrameHeader(6, length) + StringBytes(m.user) + BigEndian(m.listNum, 4) + BigEndian(m.totalList, 4)
            + BigEndian(|m.records|, 4) + RecordsBytes(m.records)
  {
    hide BigEndian, RecordsBytes, FrameHeader, StringBytes;
  }

  // ---------- Decoding fields at a cursor ----------

  function DecodeInt(b: bytes, pos: nat): Result<(int32, nat)> {
    if 4 > |b| - pos then Err(TooShort) else Ok((ReadInt32(b[pos..pos + 4]), pos + 4))
  }

  function DecodeLong(b: bytes, pos: nat): Result<(int64, nat)> {
    if 8 > |b| - pos then Err(TooShort) else Ok((ReadInt64(b[pos..pos + 8]), pos + 8))
  }

  function DecodeString(b: bytes, pos: nat): (r: Result<(bytes, nat)>)
    ensures r.Ok? ==> pos + 4 + |r.value.0| == r.value.1 <= |b|
  {
    var n :- DecodeInt(b, pos);
    :- Need(n.0 >= 0, NegativeNum);
    :- Need(|b| - n.1 >= n.0, TooShort);
    Ok((b[n.1..n.1 + n.0], n.1 + n.0))
  }

  function DecodeUsername(b: bytes, pos: nat): (r: Result<(bytes, nat)>)
    ensures r.Ok? ==> pos + 4 + |r.value.0| == r.value.1 <= |b|
  {
    var s :- DecodeString(b, pos);
    :- Need(ValidUsername(s.0), BadUsername);
    Ok(s)
  }

  /**
   `stale` is what the record's memory holds where its time will be stored: the check made while the
   message number is set reads that memory, not the number.
   */
  function DecodeRecord(b: bytes, pos: nat, stale: int64): (r: Result<(Record, nat)>)
    ensures r.Ok? ==> pos + 36 <= r.value.1 <= |b|
  {
    var sender :- DecodeUsername(b, pos);
    var receiver :- DecodeUsername(b, sender.1);
    var message :- DecodeString(b, receiver.1);
    var decryptLen :- DecodeLong(b, message.1);
    :- Need(decryptLen.0 <= MAX_MESSAGE_LENGTH, MsgLength);
    var number :- DecodeInt(b, decryptLen.1);
    :- Need(stale >= 0, NegativeNum);
    var total :- DecodeInt(b, number.1);
    :- Need(total.0 >= 0, NegativeNum);
    var time :- DecodeLong(b, total.1);
    :- Need(time.0 >= 0, NegativeNum);
    Ok((Record(sender.0, receiver.0, message.0, decryptLen.0, number.0, total.0, time.0), time.1))
  }

  /** What the memory of each record object holds where its time will be stored. */
  type Memory = nat -> int64

  /** `count` records, the first of them built in the memory of number `k`. */
  function DecodeRecords(b: bytes, pos: nat, count: int, k: nat, stale: Memory): (r: Result<(seq<Record>, nat)>)
    ensures r.Ok? ==> pos + 36 * |r.value.0| <= r.value.1
    ensures r.Ok? && count > 0 ==> r.value.1 <= |b|
    decreases count
  {
    if count <= 0 then Ok(([], pos))
    else
      var first :- DecodeRecord(b, pos, stale(k));
      var rest :- DecodeRecords(b, first.1, count - 1, k + 1, stale);
      Ok(([first.0] + rest.0, rest.1))
  }

  // ---------- Decoding payloads ----------

  function DecodeKey(b: bytes, pos: nat): Result<Key> {
    if |b| - pos < 1 then Err(TooShort)
    else
      var rest := |b| - (pos + 1);
      if b[pos] == 0 then Ok(NoKey)
      else if b[pos] == 1 && rest >= ASYMMETRIC_LENGTH then
        var pem := b[pos + 1..pos + 1 + ASYMMETRIC_LENGTH];
        if PemLayout(pem) then Ok(PublicKey(pem)) else Err(AsymmetricKey)
      else if b[pos] == 2 && rest == ENCRYPTED_SYM_LENGTH then Ok(WrappedKey(b[pos + 1..]))
      else Err(BadKey)
  }

  function DecodeLogin(b: bytes): Result<Message> {
    var user :- DecodeUsername(b, 0);
    var key :- DecodeKey(b, user.1);
    Ok(Login(user.0, key))
  }

  function DecodeChallenge(b: bytes): Result<Message> {
    if |b| < CHALLENGE_LENGTH then Err(BadChallenge) else Ok(Challenge(b[..CHALLENGE_LENGTH]))
  }

  function DecodeResponse(b: bytes): Result<Message> {
    var user :- DecodeUsername(b, 0);
    var hash :- DecodeString(b, user.1);
    // a nonce cut short is dropped without complaint
    Ok(Response(user.0, hash.0, if |b| - hash.1 >= 8 then b[hash.1..hash.1 + 8] else []))
  }

  function ErrorOf(code: nat): Result<AckError> {
    if code == 0 then Ok(Success)
    else if code == 1 then Ok(InvalidType)
    else if code == 2 then Ok(InvalidPassword)
    else if code == 3 then Ok(Formatting)
    else if code == 4 then Ok(DefaultError)
    else if code == 5 then Ok(PasswordAuth)
    else Err(InvalidError)
  }

  /** The server reads the first payload byte without asking whether there is one. */
  function DecodeAck(b: bytes): Result<Message> {
    if b == [] then Err(Undefined)
    else
      var error :- ErrorOf(b[0] / 2);
      Ok(Ack(error, if b[0] % 2 == 0 then Server else Client))
  }

  function DecodePoll(b: bytes): Result<Message> {
    var user :- DecodeUsername(b, 0);
    var time :- DecodeLong(b, user.1);
    Ok(Poll(user.0, time.0))
  }

  /** The fields before the list: the user, the two list numbers, the declared count, the cursor. */
  function DecodeListHeader(b: bytes): Result<(bytes, int32, int32, int32, nat)> {
    var user :- DecodeUsername(b, 0);
    var listNum :- DecodeInt(b, user.1);
    :- Need(listNum.0 >= 0, NegativeNum);
    var totalList :- DecodeInt(b, listNum.1);
    :- Need(totalList.0 >= 0, NegativeNum);
    var count :- DecodeInt(b, totalList.1);
    Ok((user.0, listNum.0, totalList.0, count.0, count.1))
  }

  /** The message and the cursor behind its last record. */
  function DecodePollResponse(b: bytes, stale: Memory): Result<(Message, nat)> {
    var h :- DecodeListHeader(b);
    var records :- DecodeRecords(b, h.4, h.3, 0, stale);
    Ok((PollResponse(h.0, h.1, h.2, records.0), records.1))
  }

  function DecodePayload(type_: byte, b: bytes, stale: Memory): Result<Message> {
    if type_ == 0 then DecodeLogin(b)
    else if type_ == 1 then DecodeChallenge(b)
    else if type_ == 2 then DecodeResponse(b)
    else if type_ == 3 then DecodeAck(b)
    else if type_ == 5 then DecodePoll(b)
    else if type_ == 6 then
      var r :- DecodePollResponse(b, stale);
      Ok(r.0)
    else Err(NoSuchType)
  }

  // ---------- What the format can carry ----------

  predicate FineRecord(r: Record, stale: int64) {
    && ValidUsername(r.sender) && |r.sender| <= INT_MAX
    && ValidUsername(r.receiver) && |r.receiver| <= INT_MAX
    && |r.message| <= INT_MAX
    && r.decryptLen <= MAX_MESSAGE_LENGTH
    && r.total >= 0
    && r.time >= 0
    && stale >= 0
  }

  predicate FineKey(k: Key) {
    match k
    case NoKey => true
    case PublicKey(pem) => PemLayout(pem)
    case WrappedKey(wrapped) => |wrapped| == ENCRYPTED_SYM_LENGTH
  }

  /** Records built one after the other, the first in the memory of number `k`. */
  predicate FineRecords(rs: seq<Record>, k: nat, stale: Memory) {
    forall i :: 0 <= i < |rs| ==> FineRecord(rs[i], stale(k + i))
  }

  /** The fields a message can have and come back: a nonce has eight bytes, or was never there. */
  predicate Fine(m: Message, stale: Memory) {
    match m
    case Login(user, key) => ValidUsername(user) && |user| <= INT_MAX && FineKey(key)
    case Challenge(challenge) => |challenge| == CHALLENGE_LENGTH
    case Response(user, hash, nonce) =>
      ValidUsername(user) && |user| <= INT_MAX && |hash| <= INT_MAX && (|nonce| == 8 || nonce == [])
    case Ack(_, _) => true
    case Poll(user, _) => ValidUsername(user) && |user| <= INT_MAX
    case PollResponse(user, listNum, totalList, records) =>
      && ValidUsername(user) && |user| <= INT_MAX
      && listNum >= 0 && totalList >= 0 && |records| <= INT_MAX
      && FineRecords(records, 0, stale)
  }

  // ---------- Fields: decoding succeeds exactly on the encoding ----------

  lemma IntField(b: bytes, pos: nat, n: int32, next: nat)
    ensures DecodeInt(b, pos) == Ok((n, next)) <==> At(b, pos, BigEndian(n, 4)) && next == pos + 4
  {
    hide BigEndian;
    if pos + 4 <= |b| {
      Int32Codec(b[pos..pos + 4], n);
    }
  }

  lemma LongField(b: bytes, pos: nat, n: int64, next: nat)
    ensures DecodeLong(b, pos) == Ok((n, next)) <==> At(b, pos, BigEndian(n, 8)) && next == pos + 8
  {
    hide BigEndian;
    if pos + 8 <= |b| {
      Int64Codec(b[pos..pos + 8], n);
    }
  }

  lemma StringField(b: bytes, pos: nat, s: bytes, next: nat)
    ensures DecodeString(b, pos) == Ok((s, next))
      <==> |s| <= INT_MAX && At(b, pos, StringBytes(s)) && next == pos + 4 + |s|
  {
    hide BigEndian, ReadInt32;
    AtSplit(b, pos, BigEndian(|s|, 4), s);
    if |s| <= INT_MAX {
      IntField(b, pos, |s|, pos + 4);
    }
    if DecodeString(b, pos).Ok? {
      var n := DecodeInt(b, pos).value;
      IntField(b, pos, n.0, n.1);
    }
  }

  lemma UsernameField(b: bytes, pos: nat, s: bytes, next: nat)
    ensures DecodeUsername(b, pos) == Ok((s, next))
      <==> |s| <= INT_MAX && ValidUsername(s) && At(b, pos, StringBytes(s)) && next == pos + 4 + |s|
  {
    StringField(b, pos, s, next);
  }

  lemma RecordAt(b: bytes, pos: nat, r: Record)
    ensures var receiver := pos + 4 + |r.sender|;
            var message := receiver + 4 + |r.receiver|;
            var decryptLen := message + 4 + |r.message|;
            At(b, pos, RecordBytes(r)) <==>
            && At(b, pos, StringBytes(r.sender))
            && At(b, receiver, StringBytes(r.receiver))
            && At(b, message, StringBytes(r.message))
            && At(b, decryptLen, BigEndian(r.decryptLen, 8))
            && At(b, decryptLen + 8, BigEndian(r.number, 4))
            && At(b, decryptLen + 12, BigEndian(r.total, 4))
            && At(b, decryptLen + 16, BigEndian(r.time, 8))
  {
    hide BigEndian;
    var upTo3 := StringBytes(r.sender) + StringBytes(r.receiver) + StringBytes(r.message);
    var upTo4 := upTo3 + BigEndian(r.decryptLen, 8);
    var upTo5 := upTo4 + BigEndian(r.number, 4);
    var upTo6 := upTo5 + BigEndian(r.total, 4);
    AtSplit(b, pos, upTo6, BigEndian(r.time, 8));
    AtSplit(b, pos, upTo5, BigEndian(r.total, 4));
    AtSplit(b, pos, upTo4, BigEndian(r.number, 4));
    AtSplit(b, pos, upTo3, BigEndian(r.decryptLen, 8));
    AtSplit(b, pos, StringBytes(r.sender) + StringBytes(r.receiver), StringBytes(r.message));
    AtSplit(b, pos, StringBytes(r.sender), StringBytes(r.receiver));
  }

  lemma RecordDecodes(b: bytes, pos: nat, r: Record, stale: int64)
    requires FineRecord(r, stale) && At(b, pos, RecordBytes(r))
    ensures DecodeRecord(b, pos, stale) == Ok((r, pos + |RecordBytes(r)|))
  {
    hide BigEndian, At, DecodeUsername, DecodeString, DecodeInt, DecodeLong;
    var receiver := pos + 4 + |r.sender|;
    var message := receiver + 4 + |r.receiver|;
    var decryptLen := message + 4 + |r.message|;
    RecordAt(b, pos, r);
    assert DecodeUsername(b, pos) == Ok((r.sender, receiver)) by {
      UsernameField(b, pos, r.sender, receiver);
    }
    assert DecodeUsername(b, receiver) == Ok((r.receiver, message)) by {
      UsernameField(b, receiver, r.receiver, message);
    }
    assert DecodeString(b, message) == Ok((r.message, decryptLen)) by {
      StringField(b, message, r.message, decryptLen);
    }
    assert DecodeLong(b, decryptLen) == Ok((r.decryptLen, decryptLen + 8)) by {
      LongField(b, decryptLen, r.decryptLen, decryptLen + 8);
    }
    assert DecodeInt(b, decryptLen + 8) == Ok((r.number, decryptLen + 12)) by {
      IntField(b, decryptLen + 8, r.number, decryptLen + 12);
    }
    assert DecodeInt(b, decryptLen + 12) == Ok((r.total, decryptLen + 16)) by {
      IntField(b, decryptLen + 12, r.total, decryptLen + 16);
    }
    assert DecodeLong(b, decryptLen + 16) == Ok((r.time, decryptLen + 24)) by {
      LongField(b, decryptLen + 16, r.time, decryptLen + 24);
    }
  }

  lemma DecodedRecord(b: bytes, pos: nat, r: Record, next: nat, stale: int64)
    requires DecodeRecord(b, pos, stale) == Ok((r, next))
    ensures FineRecord(r, stale) && At(b, pos, RecordBytes(r)) && next == pos + |RecordBytes(r)|
  {
    hide BigEndian, ReadInt32, ReadInt64, At, ValidUsername;
    var receiver := DecodeUsername(b, pos).value.1;
    var message := DecodeUsername(b, receiver).value.1;
    var decryptLen := DecodeString(b, message).value.1;
    UsernameField(b, pos, r.sender, receiver);
    UsernameField(b, receiver, r.receiver, message);
    StringField(b, message, r.message, decryptLen);
    LongField(b, decryptLen, r.decryptLen, decryptLen + 8);
    IntField(b, decryptLen + 8, r.number, decryptLen + 12);
    IntField(b, decryptLen + 12, r.total, decryptLen + 16);
    LongField(b, decryptLen + 16, r.time, decryptLen + 24);
    RecordAt(b, pos, r);
  }

  /** A record is decoded exactly where its encoding stands, and only if every setter accepts it. */
  lemma RecordField(b: bytes, pos: nat, r: Record, next: nat, stale: int64)
    ensures DecodeRecord(b, pos, stale) == Ok((r, next))
      <==> FineRecord(r, stale) && At(b, pos, RecordBytes(r)) && next == pos + |RecordBytes(r)|
  {
    hide BigEndian, DecodeRecord;
    if DecodeRecord(b, pos, stale) == Ok((r, next)) {
      DecodedRecord(b, pos, r, next, stale);
    }
    if FineRecord(r, stale) && At(b, pos, RecordBytes(r)) {
      RecordDecodes(b, pos, r, stale);
    }
  }

  lemma FineRecordsSplit(rs: seq<Record>, k: nat, stale: Memory)
    requires rs != []
    ensures FineRecords(rs, k, stale) <==> FineRecord(rs[0], stale(k)) && FineRecords(rs[1..], k + 1, stale)
  {
    hide FineRecord;
    if FineRecord(rs[0], stale(k)) && FineRecords(rs[1..], k + 1, stale) {
      forall i | 0 <= i < |rs|
        ensures FineRecord(rs[i], stale(k + i))
      {
        if i > 0 {
          assert FineRecord(rs[1..][i - 1], stale(k + 1 + (i - 1)));
        }
      }
    }
    if FineRecords(rs, k, stale) {
      forall i | 0 <= i < |rs[1..]|
        ensures FineRecord(rs[1..][i], stale(k + 1 + i))
      {
        assert FineRecord(rs[i + 1], stale(k + (i + 1)));
      }
    }
  }

  lemma {:induction false} RecordsField(b: bytes, pos: nat, rs: seq<Record>, next: nat, k: nat, stale: Memory)
    ensures DecodeRecords(b, pos, |rs|, k, stale) == Ok((rs, next))
      <==> FineRecords(rs, k, stale) && (rs == [] || At(b, pos, RecordsBytes(rs))) && next == pos + |RecordsBytes(rs)|
    decreases |rs|
  {
    hide BigEndian, DecodeRecord, RecordBytes, FineRecord, FineRecords;
    if rs == [] {
      NoRecords(k, stale);
    } else {
      var first, rest := rs[0], rs[1..];
      var mid := pos + |RecordBytes(first)|;
      assert rs == [first] + rest;
      FineRecordsSplit(rs, k, stale);
      AtSplit(b, pos, RecordBytes(first), RecordsBytes(rest));
      RecordField(b, pos, first, mid, stale(k));
      RecordsField(b, mid, rest, next, k + 1, stale);
      if DecodeRecords(b, pos, |rs|, k, stale) == Ok((rs, next)) {
        var got := DecodeRecord(b, pos, stale(k)).value;
        assert got.0 == first;
        RecordField(b, pos, first, got.1, stale(k));
      }
    }
  }

  lemma NoRecords(k: nat, stale: Memory)
    ensures FineRecords([], k, stale)
  {
  }

  // ---------- Payloads: what decoding accepts, and that it re-encodes to the bytes read ----------

  lemma ListHeaderAt(b: bytes, user: bytes, listNum: int32, totalList: int32, count: int32, next: nat)
    ensures DecodeListHeader(b) == Ok((user, listNum, totalList, count, next))
      <==> && ValidUsername(user) && |user| <= INT_MAX && listNum >= 0 && totalList >= 0
           && At(b, 0, StringBytes(user) + BigEndian(listNum, 4) + BigEndian(totalList, 4) + BigEndian(count, 4))
           && next == |user| + 16
  {
    hide BigEndian, ReadInt32;
    var p := 4 + |user|;
    var two := StringBytes(user) + BigEndian(listNum, 4);
    AtSplit(b, 0, two + BigEndian(totalList, 4), BigEndian(count, 4));
    AtSplit(b, 0, two, BigEndian(totalList, 4));
    AtSplit(b, 0, StringBytes(user), BigEndian(listNum, 4));
    UsernameField(b, 0, user, p);
    IntField(b, p, listNum, p + 4);
    IntField(b, p + 4, totalList, p + 8);
    IntField(b, p + 8, count, p + 12);
  }

  /** A poll response whose count is not negative is decoded exactly where its encoding stands. */
  lemma PollResponseField(b: bytes, m: Message, next: nat, stale: Memory)
    requires m.PollResponse?
    requires DecodeListHeader(b).Ok? ==> DecodeListHeader(b).value.3 >= 0
    ensures DecodePollResponse(b, stale) == Ok((m, next))
      <==> Fine(m, stale) && At(b, 0, Payload(m)) && next == |Payload(m)|
  {
    hide BigEndian, DecodeListHeader, DecodeRecords;
    var PollResponse(user, listNum, totalList, records) := m;
    var header := StringBytes(user) + BigEndian(listNum, 4) + BigEndian(totalList, 4) + BigEndian(|records|, 4);
    AtSplit(b, 0, header, RecordsBytes(records));
    RecordsField(b, |user| + 16, records, next, 0, stale);
    if |records| <= INT_MAX {
      ListHeaderAt(b, user, listNum, totalList, |records|, |user| + 16);
    }
    if DecodePollResponse(b, stale) == Ok((m, next)) {
      var h := DecodeListHeader(b).value;
      DecodedCount(b, h.4, h.3, 0, stale);
      ListHeaderAt(b, h.0, h.1, h.2, h.3, h.4);
    }
  }

  lemma {:induction false} DecodedCount(b: bytes, pos: nat, count: int, k: nat, stale: Memory)
    requires DecodeRecords(b, pos, count, k, stale).Ok? && count >= 0
    ensures |DecodeRecords(b, pos, count, k, stale).value.0| == count
    decreases count
  {
    hide DecodeRecord;
    if count > 0 {
      DecodedCount(b, DecodeRecord(b, pos, stale(k)).value.1, count - 1, k + 1, stale);
    }
  }

  lemma LoginField(b: bytes, m: Message, stale: Memory)
    requires m.Login?
    ensures DecodeLogin(b) == Ok(m)
      <==> && Fine(m, stale) && At(b, 0, Payload(m))
           && (m.key.WrappedKey? ==> |b| == |Payload(m)|)
  {
    hide BigEndian, ReadInt32, DecodeString;
    var p := 4 + |m.user|;
    UsernameField(b, 0, m.user, p);
    AtSplit(b, 0, StringBytes(m.user) + [KeyByte(m.key)], KeyBytes(m.key));
    AtSplit(b, 0, StringBytes(m.user), [KeyByte(m.key)]);
    assert |b| > p ==> b[p..p + 1] == [b[p]];
    assert |b| == p + 1 + ENCRYPTED_SYM_LENGTH ==> b[p + 1..] == b[p + 1..p + 1 + ENCRYPTED_SYM_LENGTH];
  }

  /** Without a nonce the response is decoded only where fewer than eight bytes follow the hash. */
  lemma ResponseField(b: bytes, m: Message, stale: Memory)
    requires m.Response?
    ensures DecodeResponse(b) == Ok(m)
      <==> Fine(m, stale) && At(b, 0, Payload(m)) && (m.nonce == [] ==> |b| - |Payload(m)| < 8)
  {
    hide BigEndian, ReadInt32;
    var p := 4 + |m.user|;
    var q := p + 4 + |m.hash|;
    UsernameField(b, 0, m.user, p);
    StringField(b, p, m.hash, q);
    AtSplit(b, 0, StringBytes(m.user) + StringBytes(m.hash), m.nonce);
    AtSplit(b, 0, StringBytes(m.user), StringBytes(m.hash));
  }

  lemma PollField(b: bytes, m: Message, stale: Memory)
    requires m.Poll?
    ensures DecodePoll(b) == Ok(m) <==> Fine(m, stale) && At(b, 0, Payload(m))
  {
    hide BigEndian, ReadInt32, ReadInt64;
    var p := 4 + |m.user|;
    UsernameField(b, 0, m.user, p);
    LongField(b, p, m.time, p + 8);
    AtSplit(b, 0, StringBytes(m.user), BigEndian(m.time, 8));
  }

  lemma AckField(b: bytes, m: Message)
    requires m.Ack?
    ensures DecodeAck(b) == Ok(m) <==> At(b, 0, Payload(m))
  {
    if b != [] {
      assert b[0..1] == [b[0]];
    }
  }

  /** The payload declares a list of fewer than no messages. */
  predicate NegativeList(type_: byte, b: bytes) {
    type_ == 6 && DecodeListHeader(b).Ok? && DecodeListHeader(b).value.3 < 0
  }

  /**
   Canonicity: what was decoded has the fields a message can have, and its encoding is the front of the bytes read, for
   every payload but a list with a negative count. The rest of the bytes is ignored: of a response, all behind the
   eight bytes of the nonce, or, where fewer than eight follow the hash, those.
   */
  lemma Canonicity(type_: byte, b: bytes, m: Message, stale: Memory)
    requires DecodePayload(type_, b, stale) == Ok(m)
    ensures type_ == TypeByte(m) && Fine(m, stale)
    ensures At(b, 0, Payload(m)) <==> !NegativeList(type_, b)
    ensures m.Response? ==>
              if |b| - (8 + |m.user| + |m.hash|) >= 8 then |m.nonce| == 8
                  && |b| - |Payload(m)| == |b| - (16 + |m.user| + |m.hash|)
              else m.nonce == [] && 0 <= |b| - |Payload(m)| < 8
  {
    hide BigEndian, DecodeListHeader, DecodeRecords, DecodeUsername, DecodeString;
    match m
    case Login(_, _) => LoginField(b, m, stale);
    case Challenge(_) =>
    case Ack(_, _) => AckField(b, m);
    case Poll(_, _) => PollField(b, m, stale);
    case Response(_, _, _) => ResponseField(b, m, stale);
    case PollResponse(_, _, _, _) =>
      var h := DecodeListHeader(b).value;
      if h.3 >= 0 {
        PollResponseField(b, m, DecodePollResponse(b, stale).value.1, stale);
      } else {
        NegativeCount(b, m, stale);
      }
  }

  lemma NegativeCount(b: bytes, m: Message, stale: Memory)
    requires DecodeListHeader(b).Ok? && DecodeListHeader(b).value.3 < 0
    requires DecodePayload(6, b, stale) == Ok(m)
    ensures m.PollResponse? && m.records == [] && Fine(m, stale) && !At(b, 0, Payload(m))
  {
    hide BigEndian, DecodeListHeader;
    var h := DecodeListHeader(b).value;
    ListHeaderAt(b, h.0, h.1, h.2, h.3, h.4);
    if At(b, 0, Payload(m)) {
      var PollResponse(user, listNum, totalList, records) := m;
      var header := StringBytes(user) + BigEndian(listNum, 4) + BigEndian(totalList, 4) + BigEndian(0, 4);
      AtSplit(b, 0, header, RecordsBytes(records));
      ListHeaderAt(b, user, listNum, totalList, 0, |user| + 16);
      assert false;
    }
  }

  /** Round trip: the payload of a message is decoded to that message exactly when it has such fields. */
  lemma RoundTrip(m: Message, stale: Memory)
    ensures DecodePayload(TypeByte(m), Payload(m), stale) == Ok(m) <==> Fine(m, stale)
  {
    hide BigEndian, DecodeListHeader, DecodeRecords, DecodeUsername, DecodeString;
    var b := Payload(m);
    assert b[0..|b|] == b;
    match m
    case Login(_, _) => LoginField(b, m, stale);
    case Challenge(_) =>
    case Ack(_, _) => AckField(b, m);
    case Poll(_, _) => PollField(b, m, stale);
    case Response(_, _, _) => ResponseField(b, m, stale);
    case PollResponse(user, listNum, totalList, records) =>
      if DecodeListHeader(b).Ok? && DecodeListHeader(b).value.3 < 0 {
        if DecodePayload(6, b, stale) == Ok(m) {
          NegativeCount(b, m, stale);
        }
        if Fine(m, stale) {
          HeaderOfPayload(m, stale);
        }
      } else {
        PollResponseField(b, m, |b|, stale);
        if DecodePollResponse(b, stale).Ok? {
          var r := DecodePollResponse(b, stale).value;
          PollResponseField(b, r.0, r.1, stale);
          PollResponseField(b, m, r.1, stale);
        }
      }
  }

  lemma HeaderOfPayload(m: Message, stale: Memory)
    requires m.PollResponse? && Fine(m, stale)
    ensures DecodeListHeader(Payload(m)) == Ok((m.user, m.listNum, m.totalList, |m.records|, |m.user| + 16))
  {
    hide BigEndian, DecodeListHeader, FineRecords;
    var PollResponse(user, listNum, totalList, records) := m;
    var header := StringBytes(user) + BigEndian(listNum, 4) + BigEndian(totalList, 4) + BigEndian(|records|, 4);
    assert At(Payload(m), 0, header);
    ListHeaderAt(Payload(m), user, listNum, totalList, |records|, |user| + 16);
  }

  // ---------- The format in plain numbers ----------

  lemma HeaderBytes()
    ensures HEADER == [83, 80, 67, 104, 97, 116, 47, 49, 46, 48]
  {
    var text := "SPChat/1.0";
    assert HEADER == Ascii(text);
    assert text[0] == 'S' && text[1] == 'P' && text[2] == 'C' && text[3] == 'h' && text[4] == 'a';
    assert text[5] == 't' && text[6] == '/' && text[7] == '1' && text[8] == '.' && text[9] == '0';
  }

  lemma FourBytes(n: int)
    requires 0 <= n < 256
    ensures BigEndian(n, 4) == [0, 0, 0, n]
  {
    assert BigEndian(0, 1) == [0] && BigEndian(0, 2) == [0, 0] && BigEndian(0, 3) == [0, 0, 0];
  }

  lemma EightBytes(n: int)
    requires 0 <= n < 256
    ensures BigEndian(n, 8) == [0, 0, 0, 0, 0, 0, 0, n]
  {
    FourBytes(0);
    assert BigEndian(0, 5) == [0, 0, 0, 0, 0] && BigEndian(0, 6) == [0, 0, 0, 0, 0, 0];
    assert BigEndian(0, 7) == [0, 0, 0, 0, 0, 0, 0];
  }

  /** The header of a frame: ten letters, the type, the length in eight bytes. */
  lemma HeaderInNumbers(type_: byte, n: nat)
    requires n < 256
    ensures FrameHeader(type_, n) == [83, 80, 67, 104, 97, 116, 47, 49, 46, 48, type_, 0, 0, 0, 0, 0, 0, 0, n]
  {
    hide BigEndian;
    HeaderBytes();
    EightBytes(n);
  }

  lemma AcksInNumbers()
    ensures TypeByte(Ack(Success, Server)) == 3
    ensures Payload(Ack(Success, Server)) == [0] && Payload(Ack(Success, Client)) == [1]
    ensures Payload(Ack(InvalidType, Server)) == [2] && Payload(Ack(InvalidPassword, Server)) == [4]
    ensures Payload(Ack(Formatting, Server)) == [6] && Payload(Ack(DefaultError, Server)) == [8]
    ensures Payload(Ack(PasswordAuth, Server)) == [10] && Payload(Ack(PasswordAuth, Client)) == [11]
  {
  }

  /** One message of each type, byte by byte: which field comes where, and how wide. */
  lemma MessagesInNumbers(nonce: bytes)
    ensures var m := Login([97], WrappedKey([7]));
            TypeByte(m) == 0 && Payload(m) == [0, 0, 0, 1, 97, 2, 7]
    ensures Payload(Login([97], NoKey)) == [0, 0, 0, 1, 97, 0]
    ensures Payload(Login([], PublicKey([7]))) == [0, 0, 0, 0, 1, 7]
    ensures TypeByte(Challenge(nonce)) == 1 && Payload(Challenge(nonce)) == nonce
    ensures var m := Response([97], [98, 99], nonce);
            TypeByte(m) == 2 && Payload(m) == [0, 0, 0, 1, 97, 0, 0, 0, 2, 98, 99] + nonce
    ensures var m := Poll([97], 9);
            TypeByte(m) == 5 && Payload(m) == [0, 0, 0, 1, 97, 0, 0, 0, 0, 0, 0, 0, 9]
  {
    hide BigEndian;
    FourBytes(0);
    FourBytes(1);
    FourBytes(2);
    EightBytes(9);
  }

  lemma RecordInNumbers()
    ensures RecordBytes(Record([98], [99], [100, 101], 3, 4, 5, 6))
         == [0, 0, 0, 1, 98] + [0, 0, 0, 1, 99] + [0, 0, 0, 2, 100, 101]
            + [0, 0, 0, 0, 0, 0, 0, 3] + [0, 0, 0, 4] + [0, 0, 0, 5] + [0, 0, 0, 0, 0, 0, 0, 6]
  {
    hide BigEndian;
    FourBytes(1);
    FourBytes(2);
    FourBytes(4);
    FourBytes(5);
    EightBytes(3);
    EightBytes(6);
  }

  lemma ListInNumbers(r: Record)
    ensures var m := PollResponse([97], 1, 2, [r]);
            && TypeByte(m) == 6
            && Payload(m) == [0, 0, 0, 1, 97] + [0, 0, 0, 1] + [0, 0, 0, 2] + [0, 0, 0, 1] + RecordBytes(r)
  {
    hide BigEndian, RecordBytes;
    FourBytes(1);
    FourBytes(2);
    assert RecordsBytes([r]) == RecordBytes(r) + RecordsBytes([]) == RecordBytes(r);
  }

  /** A letter, a digit, or one of four others. */
  predicate PlainName(name: bytes) {
    forall i :: 0 <= i < |name| ==>
        || 97 <= name[i] <= 122 || 65 <= name[i] <= 90 || 48 <= name[i] <= 57
        || name[i] == 64 || name[i] == 45 || name[i] == 46 || name[i] == 95
  }

  lemma ValidIsPlain(name: bytes)
    ensures ValidUsername(name) <==> PlainName(name)
  {
    forall c: byte
      ensures UsernameChar(c) <==>
                || 97 <= c <= 122 || 65 <= c <= 90 || 48 <= c <= 57 || c == 64 || c == 45 || c == 46 || c == 95
    {
    }
  }

  /** What the server has decoded has passed every check, whatever the bytes were. */
  lemma DecodedIsChecked(type_: byte, b: bytes, m: Message, stale: Memory)
    requires DecodePayload(type_, b, stale) == Ok(m)
    ensures m.Login? || m.Response? || m.Poll? || m.PollResponse? ==> PlainName(m.user)
    ensures m.Login? && m.key.PublicKey? ==> |m.key.pem| == 271 && m.key.pem[26] == m.key.pem[246] == 10
    ensures m.Login? && m.key.WrappedKey? ==> |m.key.wrapped| == 128
    ensures m.Challenge? ==> |m.challenge| == 8
    ensures m.PollResponse? ==>
              && m.listNum >= 0 && m.totalList >= 0
              && forall i :: 0 <= i < |m.records| ==>
                   var r := m.records[i];
                   && PlainName(r.sender) && PlainName(r.receiver)
                   && r.decryptLen <= 500 && r.total >= 0 && r.time >= 0 && stale(i) >= 0
  {
    hide DecodePayload, ValidUsername, PlainName, UsernameChar;
    Canonicity(type_, b, m, stale);
    if m.Login? || m.Response? || m.Poll? || m.PollResponse? {
      ValidIsPlain(m.user);
    }
    if m.Login? && m.key.PublicKey? {
      NewlineInLayout(m.key.pem);
    }
    if m.PollResponse? {
      forall i | 0 <= i < |m.records|
        ensures var r := m.records[i];
                && PlainName(r.sender) && PlainName(r.receiver)
                && r.decryptLen <= 500 && r.total >= 0 && r.time >= 0 && stale(i) >= 0
      {
        assert FineRecord(m.records[i], stale(0 + i));
        ValidIsPlain(m.records[i].sender);
        ValidIsPlain(m.records[i].receiver);
      }
    }
  }

  lemma NewlineInLayout(pem: bytes)
    requires PemLayout(pem)
    ensures |pem| == 271 && pem[26] == pem[246] == 10
  {
    var text := "-----BEGIN PUBLIC KEY-----\n";
    assert text[26] == '\n' && ASYMMETRIC_HEADER == Ascii(text);
    assert pem[..27][26] == Ascii(text)[26] == 10;
    assert pem[ASYMMETRIC_ENDLINE_POS[3]] == ENDLINE;
  }
}
