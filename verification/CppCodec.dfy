/**
 The server's codec statement by statement: a growing output vector, a cursor that moves over a
 received payload, and message objects with checked setters. Every method is proved against the wire
 format of `Messages`.
 */
module CppCodec {
  import opened Wrappers
  import opened Bytes
  import opened Messages

  class ByteVector {
    var data: bytes

    constructor ()
      ensures data == []
    {
      data := [];
    }

    method PushBack(c: byte)
      modifies this
      ensures data == old(data) + [c]
    {
      data := data + [c];
    }

    method Insert(s: bytes)
      modifies this
      ensures data == old(data) + s
    {
      data := data + s;
    }
  }

  /** `littleEndian` tells which of the two branches the host takes. */
  function HostBytes(littleEndian: bool, num: int, size: nat): bytes {
    if littleEndian then BigEndian(num, size) else Reversed(BigEndian(num, size))
  }

  /** The loops of encodeInt and encodeLong. */
  method PushNumber(littleEndian: bool, buf: ByteVector, num: int, size: nat)
    modifies buf
    ensures buf.data == old(buf.data) + HostBytes(littleEndian, num, size)
  {
    ghost var all := HostBytes(littleEndian, num, size);
    for i := 0 to size
      invariant buf.data == old(buf.data) + all[..i]
    {
      if littleEndian {
        BigEndianByte(num, size, i);
        buf.PushBack(num / Pow256(size - 1 - i) % 256);
      } else {
        BigEndianByte(num, size, size - 1 - i);
        buf.PushBack(num / Pow256(i) % 256);
      }
      assert all[..i + 1] == all[..i] + [all[i]];
    }
    assert all[..size] == all;
  }

  lemma HighByteIn(field: bytes, i: nat)
    requires i < |field|
    ensures Unsigned(field[i..]) == Unsigned(field[i + 1..]) + field[i] * Pow256(|field| - 1 - i)
  {
    hide Pow256;
    UnsignedSplit([field[i]], field[i + 1..]);
    assert field[i..] == [field[i]] + field[i + 1..];
    assert Unsigned([field[i]]) == field[i];
  }

  lemma {:induction false} LowByteIn(field: bytes, i: nat)
    requires i < |field|
    ensures Unsigned(field[..i + 1]) * Pow256(|field| - 1 - i)
         == Unsigned(field[..i]) * Pow256(|field| - i) + field[i] * Pow256(|field| - 1 - i)
  {
    var p, u := Pow256(|field| - 1 - i), Unsigned(field[..i]);
    assert field[..i + 1][..i] == field[..i];
    assert Unsigned(field[..i + 1]) == u * 256 + field[i];
    Distribute(u, field[i], p);
  }

  lemma Distribute(u: int, low: int, p: int)
    ensures (u * 256 + low) * p == u * (256 * p) + low * p
  {
    assert u * 256 * p == u * (256 * p);
  }

  /** The loops of decodeInt and decodeLong; each byte goes to bits that are still zero, so or is plus. */
  method OrBytes(littleEndian: bool, buf: bytes, pos: nat, size: nat) returns (n: nat)
    requires pos + size <= |buf|
    ensures n == Unsigned(buf[pos..pos + size])
  {
    hide Unsigned, Pow256;
    n := 0;
    ghost var field := buf[pos..pos + size];
    UnsignedOfNothing();
    if !littleEndian {
      var i := size;
      assert field[size..] == [];
      while i > 0
        invariant 0 <= i <= size
        invariant n == Unsigned(field[i..])
      {
        i := i - 1;
        n := n + buf[pos + i] * Pow256(size - 1 - i);
        HighByteIn(field, i);
      }
      assert field[0..] == field;
    } else {
      assert field[..0] == [];
      for i := 0 to size
        invariant n == Unsigned(field[..i]) * Pow256(size - i)
      {
        LowByteIn(field, i);
        n := n + buf[pos + i] * Pow256(size - 1 - i);
      }
      assert field[..size] == field;
    }
  }

  lemma UnsignedOfNothing()
    ensures Unsigned([]) == 0 && Pow256(0) == 1
  {
  }

  /**
   Both branches of the decoder read the most significant byte first, so a number of any width written by a
   big-endian host comes back only if its bytes read the same in both directions.
   */
  lemma HostRoundTrip(littleEndian: bool, num: int, w: nat)
    requires w > 0 && -Pow256(w) <= 2 * num < Pow256(w)
    ensures Signed(HostBytes(littleEndian, num, w)) == num
      <==> littleEndian || BigEndian(num, w) == Reversed(BigEndian(num, w))
  {
    SignedOfBigEndian(num, w);
    BigEndianOfSigned(HostBytes(littleEndian, num, w));
  }

  lemma BigEndianHostLosesOne()
    ensures ReadInt32(HostBytes(false, 1, 4)) != 1
  {
    var bs := BigEndian(1, 4);
    BigEndianByte(1, 4, 0);
    BigEndianByte(1, 4, 3);
    Widths();
    assert bs[0] == 0 && bs[3] == 1 && Reversed(bs)[0] == 1;
    HostRoundTrip(false, 1, 4);
  }

  method EncodeString(buf: ByteVector, str: bytes)
    modifies buf
    ensures buf.data == old(buf.data) + StringBytes(str)
  {
    PushNumber(true, buf, |str|, 4);
    buf.Insert(str);
  }

  method EncodeHeader(buf: ByteVector, type_: byte, payloadLength: int)
    modifies buf
    ensures buf.data == old(buf.data) + FrameHeader(type_, payloadLength)
  {
    buf.Insert(HEADER);
    buf.PushBack(type_);
    PushNumber(true, buf, payloadLength, 8);
  }

  /** A received payload and the position the constructors share through a pointer. */
  class Cursor {
    const buf: bytes
    var pos: nat

    constructor (buf: bytes)
      ensures this.buf == buf && pos == 0
    {
      this.buf := buf;
      pos := 0;
    }

    method DecodeInt() returns (r: Result<int32>)
      modifies this
      ensures var d := Messages.DecodeInt(buf, old(pos));
              if d.Ok? then r == Ok(d.value.0) && pos == d.value.1 else r == Err(d.error)
    {
      if 4 > |buf| - pos {
        return Err(TooShort);
      }
      var n: int := OrBytes(true, buf, pos, 4);
      assert n == Unsigned(buf[pos..pos + 4]);
      Widths();
      UnsignedBound(buf[pos..pos + 4]);
      pos := pos + 4;
      // the bits of an int: two's complement
      r := Ok(if n < 0x8000_0000 then n else n - 0x1_0000_0000);
    }

    method DecodeLong() returns (r: Result<int64>)
      modifies this
      ensures var d := Messages.DecodeLong(buf, old(pos));
              if d.Ok? then r == Ok(d.value.0) && pos == d.value.1 else r == Err(d.error)
    {
      if 8 > |buf| - pos {
        return Err(TooShort);
      }
      var n: int := OrBytes(true, buf, pos, 8);
      assert n == Unsigned(buf[pos..pos + 8]);
      Widths();
      UnsignedBound(buf[pos..pos + 8]);
      pos := pos + 8;
      r := Ok(if n < 0x8000_0000_0000_0000 then n else n - 0x1_0000_0000_0000_0000);
    }

    method DecodeString() returns (r: Result<bytes>)
      modifies this
      ensures var d := Messages.DecodeString(buf, old(pos));
              if d.Ok? then r == Ok(d.value.0) && pos == d.value.1 else r == Err(d.error)
    {
      var strLen :- DecodeInt();
      if strLen < 0 {
        return Err(NegativeNum);
      }
      if |buf| - pos < strLen {
        return Err(TooShort);
      }
      var str: bytes := [];
      ghost var start := pos;
      for i := 0 to strLen
        invariant pos == start + i
        invariant str == buf[start..pos]
      {
        str := str + [buf[pos]];
        pos := pos + 1;
      }
      r := Ok(str);
    }
  }

  method IsValidUsername(str: bytes) returns (ok: bool)
    ensures ok == ValidUsername(str)
  {
    for i := 0 to |str|
      invariant ValidUsername(str[..i])
    {
      if !UsernameChar(str[i]) {
        assert !ValidUsername(str);
        return false;
      }
      assert forall j :: 0 <= j < i ==> str[..i + 1][j] == str[..i][j];
    }
    assert str[..|str|] == str;
    return true;
  }

  /** One entry of a poll response. Its constructor does not set `time` before the number is checked. */
  class MsgMessage {
    var sender: bytes
    var receiver: bytes
    var message: bytes
    var decryptMsgLen: int64
    var msgNum: int32
    var totalMsg: int32
    var time: int64

    function Value(): Record
      reads this
    {
      Record(sender, receiver, message, decryptMsgLen, msgNum, totalMsg, time)
    }

    constructor (stale: int64)
      ensures time == stale
    {
      time := stale;
      sender, receiver, message := [], [], [];
      decryptMsgLen, msgNum, totalMsg := 0, 0, 0;
    }

    method SetSender(name: bytes) returns (r: Result<()>)
      modifies this
      ensures Value() == if ValidUsername(name) then old(Value()).(sender := name) else old(Value())
      ensures r == if ValidUsername(name) then Ok(()) else Err(BadUsername)
    {
      var ok := IsValidUsername(name);
      if !ok {
        return Err(BadUsername);
      }
      sender := name;
      return Ok(());
    }

    method SetReceiver(name: bytes) returns (r: Result<()>)
      modifies this
      ensures Value() == if ValidUsername(name) then old(Value()).(receiver := name) else old(Value())
      ensures r == if ValidUsername(name) then Ok(()) else Err(BadUsername)
    {
      var ok := IsValidUsername(name);
      if !ok {
        return Err(BadUsername);
      }
      receiver := name;
      return Ok(());
    }

    method SetDecryptMsgLen(n: int64) returns (r: Result<()>)
      modifies this
      ensures Value() == if n <= MAX_MESSAGE_LENGTH then old(Value()).(decryptLen := n) else old(Value())
      ensures r == if n <= MAX_MESSAGE_LENGTH then Ok(()) else Err(MsgLength)
    {
      if n > MAX_MESSAGE_LENGTH {
        return Err(MsgLength);
      }
      decryptMsgLen := n;
      return Ok(());
    }

    /** Tests `time` where `n` was meant. */
    method SetMsgNum(n: int32) returns (r: Result<()>)
      modifies this
      ensures Value() == if old(time) >= 0 then old(Value()).(number := n) else old(Value())
      ensures r == if old(time) >= 0 then Ok(()) else Err(NegativeNum)
    {
      if time < 0 {
        return Err(NegativeNum);
      }
      msgNum := n;
      return Ok(());
    }

    method SetTotalMsg(n: int32) returns (r: Result<()>)
      modifies this
      ensures Value() == if n >= 0 then old(Value()).(total := n) else old(Value())
      ensures r == if n >= 0 then Ok(()) else Err(NegativeNum)
    {
      if n < 0 {
        return Err(NegativeNum);
      }
      totalMsg := n;
      return Ok(());
    }

    method SetTime(n: int64) returns (r: Result<()>)
      modifies this
      ensures Value() == if n >= 0 then old(Value()).(time := n) else old(Value())
      ensures r == if n >= 0 then Ok(()) else Err(NegativeNum)
    {
      if n < 0 {
        return Err(NegativeNum);
      }
      time := n;
      return Ok(());
    }

    method DecodeFrom(cur: Cursor) returns (r: Result<()>)
      modifies this, cur
      ensures var d := DecodeRecord(cur.buf, old(cur.pos), old(time));
              if d.Ok? then r == Ok(()) && Value() == d.value.0 && cur.pos == d.value.1 else r == Err(d.error)
    {
      hide Messages.DecodeString, Messages.DecodeInt, Messages.DecodeLong, ValidUsername;
      var s :- cur.DecodeString();
      var _ :- SetSender(s);
      s :- cur.DecodeString();
      var _ :- SetReceiver(s);
      message :- cur.DecodeString();
      var l :- cur.DecodeLong();
      var _ :- SetDecryptMsgLen(l);
      var n :- cur.DecodeInt();
      var _ :- SetMsgNum(n);
      n :- cur.DecodeInt();
      var _ :- SetTotalMsg(n);
      l :- cur.DecodeLong();
      var _ :- SetTime(l);
      return Ok(());
    }
  }

  method EncodeMessage(r: Record, buf: ByteVector)
    modifies buf
    ensures buf.data == old(buf.data) + RecordBytes(r)
  {
    hide BigEndian;
    EncodeString(buf, r.sender);
    EncodeString(buf, r.receiver);
    EncodeString(buf, r.message);
    PushNumber(true, buf, r.decryptLen, 8);
    PushNumber(true, buf, r.number, 4);
    PushNumber(true, buf, r.total, 4);
    PushNumber(true, buf, r.time, 8);
  }

  /** The length a record announces, computed apart from its bytes. */
  function RecordLength(r: Record): (n: nat)
    ensures n == |RecordBytes(r)|
  {
    4 + |r.sender| + 4 + |r.receiver| + 4 + |r.message| + 8 + 4 + 4 + 8
  }

  class SPChatPollResponse {
    var username: bytes
    var listNum: int32
    var totalList: int32
    var msgList: seq<Record>

    function Value(): Message
      reads this
    {
      PollResponse(username, listNum, totalList, msgList)
    }

    constructor (username: bytes, msgList: seq<Record>, listNum: int32, totalList: int32)
      ensures Value() == PollResponse(username, listNum, totalList, msgList)
    {
      this.username, this.msgList, this.listNum, this.totalList := username, msgList, listNum, totalList;
    }

    /**
     Whatever count is declared, at most one record is built for every 36 bytes that are left, also
     when an exception ends the loop.
     */
    method DecodeMsgList(cur: Cursor, stale: Memory) returns (r: Result<()>)
      requires cur.pos <= |cur.buf|
      modifies this, cur
      ensures username == old(username) && listNum == old(listNum) && totalList == old(totalList)
      ensures 36 * (|msgList| - old(|msgList|)) <= |cur.buf| - old(cur.pos)
      ensures var n := Messages.DecodeInt(cur.buf, old(cur.pos));
              if n.Err? then r == Err(n.error)
              else var d := DecodeRecords(cur.buf, n.value.1, n.value.0, 0, stale);
                   if d.Err? then r == Err(d.error)
                   else r == Ok(()) && msgList == old(msgList) + d.value.0 && cur.pos == d.value.1
    {
      hide DecodeRecord, DecodeRecords, Rest;
      var msgNum :- cur.DecodeInt();
      ghost var start, before := cur.pos, msgList;
      ghost var all := DecodeRecords(cur.buf, start, msgNum, 0, stale);
      var i: nat := 0;
      AllLeft(all, before);
      while i < msgNum
        invariant i <= msgNum || i == 0
        invariant start <= cur.pos <= |cur.buf|
        invariant before <= msgList && 36 * (|msgList| - |before|) <= cur.pos - start
        invariant username == old(username) && listNum == old(listNum) && totalList == old(totalList)
        invariant Rest(all, before, DecodeRecords(cur.buf, cur.pos, msgNum - i, i, stale), msgList)
      {
        NextRecord(all, before, msgList, cur.buf, cur.pos, msgNum - i, i, stale);
        var m := new MsgMessage(stale(i));
        var _ :- m.DecodeFrom(cur);
        msgList := msgList + [m.Value()];
        i := i + 1;
      }
      LastRecord(cur.buf, cur.pos, msgNum - i, i, stale);
      NothingLeft(all, before, cur.pos, msgList);
      return Ok(());
    }

    /** What is still to be decoded, put behind what has been, is the whole list. */
    static ghost predicate Rest(all: Result<(seq<Record>, nat)>, before: seq<Record>, rest: Result<(seq<Record>, nat)>,
                                now: seq<Record>) {
      if all.Err? then rest == all
      else rest.Ok? && before + all.value.0 == now + rest.value.0 && all.value.1 == rest.value.1
    }

    static lemma NextRecord(all: Result<(seq<Record>, nat)>, before: seq<Record>, now: seq<Record>,
                            b: bytes, pos: nat, count: int, k: nat, stale: Memory)
      requires count > 0 && Rest(all, before, DecodeRecords(b, pos, count, k, stale), now)
      ensures DecodeRecord(b, pos, stale(k)).Err? ==>
                all == Err(DecodeRecord(b, pos, stale(k)).error)
      ensures DecodeRecord(b, pos, stale(k)).Ok? ==>
                var first := DecodeRecord(b, pos, stale(k)).value;
                Rest(all, before, DecodeRecords(b, first.1, count - 1, k + 1, stale), now + [first.0])
    {
      hide DecodeRecord;
    }

    static lemma NothingLeft(all: Result<(seq<Record>, nat)>, before: seq<Record>, pos: nat, now: seq<Record>)
      requires Rest(all, before, Ok(([], pos)), now)
      ensures all.Ok? && now == before + all.value.0 && all.value.1 == pos
    {
    }

    static lemma AllLeft(all: Result<(seq<Record>, nat)>, before: seq<Record>)
      ensures Rest(all, before, all, before)
    {
    }

    static lemma LastRecord(b: bytes, pos: nat, count: int, k: nat, stale: Memory)
      requires count <= 0
      ensures DecodeRecords(b, pos, count, k, stale) == Ok(([], pos))
    {
    }

    method DecodeFrom(buf: bytes, stale: Memory) returns (r: Result<()>)
      requires msgList == []
      modifies this
      ensures var d := DecodePollResponse(buf, stale);
              if d.Ok? then r == Ok(()) && Value() == d.value.0 else r == Err(d.error)
      ensures 36 * |msgList| <= |buf|
    {
      hide Messages.DecodeString, Messages.DecodeInt, DecodeRecords, ValidUsername;
      var cur := new Cursor(buf);
      username :- cur.DecodeString();
      var ok := IsValidUsername(username);
      if !ok {
        return Err(BadUsername);
      }
      listNum :- cur.DecodeInt();
      if listNum < 0 {
        return Err(NegativeNum);
      }
      totalList :- cur.DecodeInt();
      if totalList < 0 {
        return Err(NegativeNum);
      }
      CursorInside(buf);
      r := DecodeMsgList(cur, stale);
    }

    method EncodeMsgList(buf: ByteVector)
      modifies buf
      ensures buf.data == old(buf.data) + BigEndian(|msgList|, 4) + RecordsBytes(msgList)
    {
      hide BigEndian, RecordBytes;
      PushNumber(true, buf, |msgList|, 4);
      ghost var before := buf.data;
      for i := 0 to |msgList|
        invariant buf.data + RecordsBytes(msgList[i..]) == before + RecordsBytes(msgList)
      {
        assert msgList[i..][1..] == msgList[i + 1..];
        EncodeMessage(msgList[i], buf);
      }
    }

    /** The sum the header announces is the number of bytes the body has. */
    method GetPayloadLength() returns (length: nat)
      ensures length == |Payload(Value())|
    {
      hide BigEndian, RecordBytes;
      length := 4 + |username| + 4 + 4 + 4;
      for i := 0 to |msgList|
        invariant length + |RecordsBytes(msgList[i..])| == |username| + 16 + |RecordsBytes(msgList)|
      {
        assert msgList[i..][1..] == msgList[i + 1..];
        length := length + RecordLength(msgList[i]);
      }
    }

    method Encode(buf: ByteVector)
      modifies buf
      ensures buf.data == old(buf.data) + Frame(Value())
    {
      hide BigEndian, RecordsBytes, FrameHeader, StringBytes, Frame, Payload;
      ghost var before := buf.data;
      var length := GetPayloadLength();
      EncodeHeader(buf, 6, length);
      EncodeString(buf, username);
      PushNumber(true, buf, listNum, 4);
      PushNumber(true, buf, totalList, 4);
      EncodeMsgList(buf);
      FrameOfList(before, Value(), length);
    }
  }

  /** The server's encoder of a poll; the client's is `JavaCodec.SendPoll`. */
  method EncodePoll(username: bytes, time: int64, buf: ByteVector)
    modifies buf
    ensures buf.data == old(buf.data) + Frame(Poll(username, time))
  {
    hide BigEndian, FrameHeader;
    ghost var before := buf.data;
    EncodeHeader(buf, 5, 4 + |username| + 8);
    EncodeString(buf, username);
    PushNumber(true, buf, time, 8);
    assert before + Frame(Poll(username, time))
        == before + FrameHeader(5, 4 + |username| + 8) + StringBytes(username) + BigEndian(time, 8);
  }

  /**
   The server's encoder of a response; the client's is `JavaCodec.SendResponse`. The announced length counts
   eight bytes for the nonce whatever its size is, so the bytes are a frame exactly for nonces of eight bytes.
   */
  method EncodeResponse(username: bytes, hash: bytes, nonce: bytes, buf: ByteVector)
    requires 16 + |username| + |hash| + |nonce| < 0x8000_0000_0000_0000  // a long
    modifies buf
    ensures buf.data == old(buf.data) + Frame(Response(username, hash, nonce)) <==> |nonce| == 8
  {
    hide BigEndian, FrameHeader, Frame;
    ghost var before := buf.data;
    var length := 4 + |username| + 4 + |hash| + 8;
    EncodeHeader(buf, 2, length);
    EncodeString(buf, username);
    EncodeString(buf, hash);
    buf.Insert(nonce);
    FrameOfResponse(before, Response(username, hash, nonce), length);
  }

  lemma FrameOfResponse(before: bytes, m: Message, announced: int64)
    requires m.Response? && |Payload(m)| < 0x8000_0000_0000_0000
    ensures before + Frame(m)
         == before + FrameHeader(2, announced) + StringBytes(m.user) + StringBytes(m.hash) + m.nonce
      <==> announced == |Payload(m)|
    ensures |Payload(m)| == 8 + |m.user| + |m.hash| + |m.nonce|
  {
    hide BigEndian, FrameHeader;
    var body := Payload(m);
    assert before + FrameHeader(2, announced) + StringBytes(m.user) + StringBytes(m.hash) + m.nonce
        == before + (FrameHeader(2, announced) + body);
    HeaderTellsLength(2, announced, |body|, before, body);
  }

  lemma CursorInside(buf: bytes)
    ensures var user := Messages.DecodeString(buf, 0);
            && (user.Ok? ==> user.value.1 <= |buf|)
            && (user.Ok? && Messages.DecodeInt(buf, user.value.1).Ok? ==>
                  var next := Messages.DecodeInt(buf, user.value.1).value.1;
                  && next <= |buf|
                  && (Messages.DecodeInt(buf, next).Ok? ==> Messages.DecodeInt(buf, next).value.1 <= |buf|))
  {
  }
}
