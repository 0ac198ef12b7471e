/** The client's reading of a poll response: fields from a stream, bodies decrypted block by block. */
module JavaReader {
  import opened Wrappers
  import opened Bytes
  import opened Messages
  import opened Cbc
  import opened JavaCodec

  const MAX_LISTS := 100

  /** java.io.DataInputStream over the bytes still to come. */
  class DataInput {
    var left: bytes
    var short: bool  // some read has returned fewer bytes than it was asked for

    constructor (left: bytes)
      ensures this.left == left && !short
    {
      this.left, short := left, false;
    }

    method ReadFully(n: nat) returns (r: Result<bytes>)
      modifies this`left
      ensures if n <= old(|left|) then r == Ok(old(left)[..n]) && left == old(left)[n..] else r == Err(BadField)
    {
      if n > |left| {
        return Err(BadField);
      }
      r := Ok(left[..n]);
      left := left[n..];
    }

    /** readInt with the upper bound the callers give. */
    method ReadInt(maxValue: int) returns (r: Result<int32>)
      modifies this`left
      ensures if old(|left|) < 4 then r == Err(BadField)
              else var n := ReadInt32(old(left)[..4]);
                   && left == old(left)[4..]
                   && r == (if 0 > n || maxValue < n then Err(BadField) else Ok(n))
    {
      var field :- ReadFully(4);
      var tempLen := ReadInt32(field);
      if 0 > tempLen || maxValue < tempLen {
        return Err(BadField);
      }
      return Ok(tempLen);
    }

    method ReadLong() returns (r: Result<int64>)
      modifies this`left
      ensures if old(|left|) < 8 then r == Err(BadField)
              else r == Ok(ReadInt64(old(left)[..8])) && left == old(left)[8..]
    {
      var field :- ReadFully(8);
      return Ok(ReadInt64(field));
    }

    /** read(byte[]): at least one byte if there is one, and what the array held before behind them. */
    method Read(chunk: bytes) returns (filled: bytes)
      modifies this
      ensures |filled| == |chunk|
      ensures var k := old(|left|) - |left|;
              && 0 <= k <= |chunk| && left == old(left)[k..]
              && filled == old(left)[..k] + chunk[k..]
              && short == (old(short) || k < |chunk|)
    {
      var k: nat :| k <= |chunk| && k <= |left| && (left != [] && chunk != [] ==> k > 0) by {
        assert (if left != [] && chunk != [] then 1 else 0) <= |left|;
      }
      filled := left[..k] + chunk[k..];
      left, short := left[k..], short || k < |chunk|;
    }
  }

  function WholeBlocks(length: nat): (n: nat)
    ensures length <= n < length + BLOCK && n % BLOCK == 0
    ensures n == length <==> length % BLOCK == 0
  {
    (length + BLOCK - 1) / BLOCK * BLOCK
  }

  /**
   The loop asks for whole blocks whatever length was announced. It takes all of them exactly if no read is short, and
   stays in step with the stream then exactly for multiples of the block size; the blocks together are
   decrypted as one message.
   */
  method DecryptBody(input: DataInput, decrypt: DecryptingCipher, messageLengthEncrypted: nat)
    returns (r: Result<bytes>)
    requires decrypt.Fresh()
    modifies input, decrypt
    ensures r.Ok? ==> decrypt.Fresh()
    ensures var k := old(|input.left|) - |input.left|;
            && 0 <= k <= WholeBlocks(messageLengthEncrypted)
            && (input.short <==> old(input.short) || k < WholeBlocks(messageLengthEncrypted))
    ensures !input.short ==>
              && (old(|input.left|) - |input.left| == messageLengthEncrypted <==> messageLengthEncrypted % BLOCK == 0)
              && input.left == old(input.left)[WholeBlocks(messageLengthEncrypted)..]
              && var body := old(input.left)[..WholeBlocks(messageLengthEncrypted)];
                 if body == [] then r == Ok([])
                 else var plain := Unpad(CbcDecrypt(decrypt.c, decrypt.key, decrypt.iv, body));
                      r == if plain.Some? then Ok(plain.value) else Err(BadField)
  {
    hide CbcDecrypt, Unpad, WholeBlocks, Chained, Taken, DecryptingCipher.Valid;
    ghost var stream := input.left;
    var bs: bytes := [];
    var chunk: Block := seq(BLOCK, _ => 0);
    var read := 0;
    NothingTaken(stream, input.short);
    while read < messageLengthEncrypted - BLOCK
      invariant 0 <= read && read % BLOCK == 0 && read <= WholeBlocks(messageLengthEncrypted)
      invariant messageLengthEncrypted > 0 ==> read < messageLengthEncrypted
      invariant Taken(stream, read, input.left, input.short, old(input.short))
      invariant decrypt.Valid() && (read == 0 ==> decrypt.fed == [])
      invariant !input.short ==> read <= |stream| && decrypt.fed == stream[..read] && decrypt.Released() == bs
    {
      chunk := NextBlock(input, chunk, stream, read, old(input.short));
      var out := decrypt.Update(chunk);
      bs := bs + out;
      read := read + BLOCK;
    }
    if read < messageLengthEncrypted {
      assert WholeBlocks(messageLengthEncrypted) == read + BLOCK;
      chunk := NextBlock(input, chunk, stream, read, old(input.short));
      TakenMeans(stream, read + BLOCK, input.left, input.short, old(input.short));
      var last := decrypt.DoFinal(chunk);
      if last.None? {
        return Err(BadField);
      }
      bs := bs + last.value;
    } else {
      TakenMeans(stream, read, input.left, input.short, old(input.short));
    }
    return Ok(bs);
  }

  /**
   After reads for `read` bytes: how many have been taken, and whether a read was short, `before` them or among them.
   */
  ghost predicate Taken(stream: bytes, read: nat, left: bytes, short: bool, before: bool) {
    var k := |stream| - |left|;
    && 0 <= k <= read && (short <==> before || k < read)
    && (!short ==> left == stream[read..])
  }

  lemma NothingTaken(stream: bytes, before: bool)
    ensures Taken(stream, 0, stream, before, before)
  {
  }

  lemma TakenMeans(stream: bytes, read: nat, left: bytes, short: bool, before: bool)
    requires Taken(stream, read, left, short, before)
    ensures var k := |stream| - |left|; 0 <= k <= read && (short <==> before || k < read)
    ensures !short ==> read <= |stream| && left == stream[read..]
  {
  }

  method NextBlock(input: DataInput, chunk: Block, ghost stream: bytes, ghost read: nat, ghost before: bool)
      returns (filled: Block)
    requires Taken(stream, read, input.left, input.short, before)
    modifies input
    ensures Taken(stream, read + BLOCK, input.left, input.short, before)
    ensures !input.short ==>
              !old(input.short) && read + BLOCK <= |stream| && stream[..read + BLOCK] == stream[..read] + filled
  {
    filled := input.Read(chunk);
  }

  /** A received entry as the client keeps it. */
  datatype Shown = Shown(sender: string, receiver: string, message: string, number: int, total: int, time: int)

  function Plain(decrypt: DecryptingCipher, body: bytes): Option<bytes> {
    if body == [] then Some([]) else Decrypt(decrypt.c, decrypt.key, decrypt.iv, body)
  }

  function View(r: Record, plain: bytes): Shown {
    Shown(FromAscii(r.sender), FromAscii(r.receiver), FromAscii(plain), r.number, r.total, r.time)
  }

  predicate JavaAccepts(r: Record, plain: Option<bytes>, now: int64) {
    && |r.sender| <= MAX_UNAME_LEN && |r.receiver| <= MAX_UNAME_LEN
    && plain.Some? && |plain.value| == r.decryptLen <= MAX_MSG_LEN * MAX_MSGS
    && 0 < r.number <= r.total
    && 0 <= r.time <= now
  }

  lemma IntFront(n: int32)
    ensures ReadInt32(BigEndian(n, 4)) == n
  {
    Int32Codec(BigEndian(n, 4), n);
  }

  lemma LongFront(n: int64)
    ensures ReadInt64(BigEndian(n, 8)) == n
  {
    Int64Codec(BigEndian(n, 8), n);
  }

  lemma FrontIf(field: bytes, rest: bytes, whole: bytes)
    ensures whole == field + rest ==>
              && |whole| >= |field| && whole[..|field|] == field && whole[|field|..] == rest
  {
  }

  /** A length and as many bytes; `name` and `rest` say what to expect if the stream is in step. */
  method ReadName(input: DataInput, ghost name: bytes, ghost rest: bytes) returns (r: Result<bytes>)
    modifies input`left
    ensures |name| <= INT_MAX && old(input.left) == StringBytes(name) + rest ==>
              && r == (if |name| <= MAX_UNAME_LEN then Ok(name) else Err(BadField))
              && (r.Ok? ==> input.left == rest)
    ensures r.Ok? ==> |r.value| <= MAX_UNAME_LEN
  {
    hide BigEndian, ReadInt32;
    ghost var s := input.left;
    if |name| <= INT_MAX && s == StringBytes(name) + rest {
      assert s == BigEndian(|name|, 4) + (name + rest);
      IntFront(|name|);
    }
    FrontIf(BigEndian(|name|, 4), name + rest, s);
    var length :- input.ReadInt(MAX_UNAME_LEN);
    FrontIf(name, rest, input.left);
    r := input.ReadFully(length);
  }

  /** The encrypted text: in step where no read is short and the body consists of whole blocks. */
  method ReadBody(input: DataInput, decrypt: DecryptingCipher, ghost body: bytes, ghost rest: bytes)
    returns (r: Result<bytes>)
    requires decrypt.Fresh()
    modifies input, decrypt
    ensures r.Ok? ==> decrypt.Fresh()
    ensures old(input.short) ==> input.short
    ensures |body| <= INT_MAX && old(input.left) == StringBytes(body) + rest && !input.short ==>
              if Whole(body) then
                && r == (var p := Plain(decrypt, body); if p.Some? then Ok(p.value) else Err(BadField))
                && input.left == rest
              else |input.left| < |rest|
  {
    hide BigEndian, ReadInt32, CbcDecrypt, Unpad;
    ghost var s := input.left;
    if |body| <= INT_MAX && s == StringBytes(body) + rest {
      assert s == BigEndian(|body|, 4) + (body + rest);
      IntFront(|body|);
    }
    FrontIf(BigEndian(|body|, 4), body + rest, s);
    var length :- input.ReadInt(INT_MAX);
    FrontIf(body, rest, input.left);
    r := DecryptBody(input, decrypt, length);
  }

  /** What is to be read is the entry `rec`, and then `rest`. */
  predicate Expected(stream: bytes, rec: Record, rest: bytes) {
    && |rec.sender| <= INT_MAX && |rec.receiver| <= INT_MAX && |rec.message| <= INT_MAX
    && stream == RecordBytes(rec) + rest
  }

  /** The four numbers behind the text. */
  function NumberBytes(rec: Record): bytes {
    BigEndian(rec.decryptLen, 8) + BigEndian(rec.number, 4) + BigEndian(rec.total, 4) + BigEndian(rec.time, 8)
  }

  /** Reads and checks them against the length of the decrypted text. */
  method ReadNumbers(input: DataInput, clock: Clock, length: nat, ghost rec: Record, ghost rest: bytes)
    returns (r: Result<(int32, int32, int64)>)
    modifies input`left, clock
    ensures clock.now >= old(clock.now)
    ensures old(input.left) == NumberBytes(rec) + rest ==>
              && (r.Ok? <==>
                    && length == rec.decryptLen <= MAX_MSG_LEN * MAX_MSGS
                    && 0 < rec.number <= rec.total && 0 <= rec.time <= clock.now)
              && (r.Ok? ==> r.value == (rec.number, rec.total, rec.time) && input.left == rest)
  {
    hide BigEndian, ReadInt32, ReadInt64;
    ghost var time := BigEndian(rec.time, 8) + rest;
    ghost var total := BigEndian(rec.total, 4) + time;
    ghost var number := BigEndian(rec.number, 4) + total;
    LongFront(rec.decryptLen);
    LongFront(rec.time);
    IntFront(rec.number);
    IntFront(rec.total);
    assert NumberBytes(rec) + rest == BigEndian(rec.decryptLen, 8) + number;
    FrontIf(BigEndian(rec.decryptLen, 8), number, input.left);
    var messageLenDecrypted :- input.ReadLong();
    if length != messageLenDecrypted || messageLenDecrypted > MAX_MSG_LEN * MAX_MSGS {
      return Err(BadField);
    }
    FrontIf(BigEndian(rec.number, 4), total, input.left);
    var messageNumber :- input.ReadInt(INT_MAX);
    FrontIf(BigEndian(rec.total, 4), time, input.left);
    var totalMessages :- input.ReadInt(INT_MAX);
    if totalMessages < messageNumber {
      return Err(BadField);
    }
    if 0 >= totalMessages || 0 >= messageNumber {
      return Err(BadField);
    }
    FrontIf(BigEndian(rec.time, 8), rest, input.left);
    var timestamp :- input.ReadLong();
    var now := clock.CurrentTimeMillis();
    if timestamp > now {
      return Err(BadField);
    }
    if 0 > timestamp {
      return Err(BadField);
    }
    return Ok((messageNumber, totalMessages, timestamp));
  }

  lemma RecordInFields(rec: Record, rest: bytes)
    ensures RecordBytes(rec) + rest
         == StringBytes(rec.sender)
            + (StringBytes(rec.receiver) + (StringBytes(rec.message) + (NumberBytes(rec) + rest)))
  {
    hide BigEndian, StringBytes;
  }

  /** The MsgMessage constructor; where the stream is out of step, it reads whatever it finds. */
  method ReadMsgMessage(input: DataInput, decrypt: DecryptingCipher, clock: Clock, ghost rec: Record, ghost rest: bytes)
    returns (r: Result<Shown>)
    requires decrypt.Fresh()
    modifies input, decrypt, clock
    ensures clock.now >= old(clock.now)
    ensures r.Ok? ==> decrypt.Fresh()
    ensures old(input.short) ==> input.short
    ensures Expected(old(input.left), rec, rest) && !input.short && Whole(rec.message) ==>
              && (r.Ok? <==> JavaAccepts(rec, Plain(decrypt, rec.message), clock.now))
              && (r.Ok? ==>
                    && r.value == View(rec, Plain(decrypt, rec.message).value) && input.left == rest
                    && r.value.sender == FromAscii(rec.sender) && r.value.receiver == FromAscii(rec.receiver)
                    && r.value.number == rec.number && r.value.total == rec.total && r.value.time == rec.time)
  {
    hide Decrypt, StringBytes, NumberBytes, RecordBytes;
    ghost var numbers := NumberBytes(rec) + rest;
    ghost var message := StringBytes(rec.message) + numbers;
    RecordInFields(rec, rest);
    var senderUsername :- ReadName(input, rec.sender, StringBytes(rec.receiver) + message);
    var receiverUsername :- ReadName(input, rec.receiver, message);
    var bs :- ReadBody(input, decrypt, rec.message, numbers);
    var text := FromAscii(bs);
    var n :- ReadNumbers(input, clock, |text|, rec, rest);
    return Ok(Shown(FromAscii(senderUsername), FromAscii(receiverUsername), text, n.0, n.1, n.2));
  }

  ghost predicate AllAccepted(rs: seq<Record>, decrypt: DecryptingCipher, now: int64) {
    forall i :: 0 <= i < |rs| ==> JavaAccepts(rs[i], Plain(decrypt, rs[i].message), now)
  }

  ghost predicate Viewed(shown: seq<Shown>, rs: seq<Record>, decrypt: DecryptingCipher) {
    && |shown| == |rs|
    && forall i :: 0 <= i < |rs| ==>
        var plain := Plain(decrypt, rs[i].message);
        plain.Some? && shown[i] == View(rs[i], plain.value)
  }

  /** The lengths fit their fields. */
  predicate Readable(m: Message) {
    && m.PollResponse? && |m.user| <= INT_MAX && |m.records| <= INT_MAX
    && forall i :: 0 <= i < |m.records| ==>
        var r := m.records[i];
        |r.sender| <= INT_MAX && |r.receiver| <= INT_MAX && |r.message| <= INT_MAX
  }

  predicate AllWhole(rs: seq<Record>) {
    forall i :: 0 <= i < |rs| ==> Whole(rs[i].message)
  }

  /** What is to be read is the list `m` behind its header, and then `rest`. */
  predicate ExpectedList(stream: bytes, m: Message, rest: bytes) {
    Readable(m) && stream == Payload(m) + rest
  }

  /** The PollResponseMessage constructor behind the header. */
  method ReadPollResponse(input: DataInput, decrypt: DecryptingCipher, clock: Clock, ghost m: Message,
                          ghost rest: bytes)
    returns (r: Result<(string, seq<Shown>)>)
    requires decrypt.Fresh()
    modifies input, decrypt, clock
    ensures clock.now >= old(clock.now)
    ensures r.Ok? ==> decrypt.Fresh()
    ensures old(input.short) ==> input.short
    ensures ExpectedList(old(input.left), m, rest) && !input.short && AllWhole(m.records) ==>
              && ((&& |m.user| <= MAX_UNAME_LEN && 0 < m.listNum <= m.totalList <= MAX_LISTS
                   && AllAccepted(m.records, decrypt, old(clock.now)))
                  ==> r.Ok?)
              && (r.Ok? ==>
                    && |m.user| <= MAX_UNAME_LEN && 0 < m.listNum <= m.totalList <= MAX_LISTS
                    && AllAccepted(m.records, decrypt, clock.now)
                    && r.value.0 == FromAscii(m.user) && Viewed(r.value.1, m.records, decrypt)
                    && input.left == rest)
  {
    hide BigEndian, ReadInt32, RecordsBytes, StringBytes, Payload, AllAccepted, Viewed, AllWhole;
    ghost var e := if ExpectedList(input.left, m, rest) then m else PollResponse([], 0, 0, []);
    ghost var list := RecordsBytes(e.records) + rest;
    ghost var count := BigEndian(|e.records|, 4) + list;
    ghost var totalList := BigEndian(e.totalList, 4) + count;
    ghost var listNum := BigEndian(e.listNum, 4) + totalList;
    ListInFields(e, rest);
    IntFront(e.listNum);
    IntFront(e.totalList);
    IntFront(|e.records|);
    var username :- ReadName(input, e.user, listNum);
    FrontIf(BigEndian(e.listNum, 4), totalList, input.left);
    var listNumber :- input.ReadInt(MAX_LISTS);
    FrontIf(BigEndian(e.totalList, 4), count, input.left);
    var totalLists :- input.ReadInt(MAX_LISTS);
    if 0 >= listNumber || 0 >= totalLists {
      return Err(BadField);
    }
    if totalLists < listNumber {
      return Err(BadField);
    }
    FrontIf(BigEndian(|e.records|, 4), list, input.left);
    var messageListSize :- input.ReadInt(INT_MAX);
    var newMessages :- ReadRecords(input, decrypt, clock, messageListSize, e.records, rest);
    return Ok((FromAscii(username), newMessages));
  }

  lemma ListInFields(m: Message, rest: bytes)
    requires m.PollResponse?
    ensures Payload(m) + rest
         == StringBytes(m.user) + (BigEndian(m.listNum, 4) + (BigEndian(m.totalList, 4)
            + (BigEndian(|m.records|, 4) + (RecordsBytes(m.records) + rest))))
  {
    hide BigEndian, RecordsBytes, StringBytes;
  }

  predicate ExpectedRecords(stream: bytes, n: nat, rs: seq<Record>, rest: bytes) {
    && n == |rs| && stream == RecordsBytes(rs) + rest
    && forall i :: 0 <= i < |rs| ==>
        |rs[i].sender| <= INT_MAX && |rs[i].receiver| <= INT_MAX
        && |rs[i].message| <= INT_MAX
  }

  /** The loop over the entries. */
  method ReadRecords(input: DataInput, decrypt: DecryptingCipher, clock: Clock, n: nat, ghost rs: seq<Record>,
                     ghost rest: bytes)
    returns (r: Result<seq<Shown>>)
    requires decrypt.Fresh()
    modifies input, decrypt, clock
    ensures clock.now >= old(clock.now)
    ensures r.Ok? ==> decrypt.Fresh()
    ensures old(input.short) ==> input.short
    ensures ExpectedRecords(old(input.left), n, rs, rest) && !input.short && AllWhole(rs) ==>
              && (AllAccepted(rs, decrypt, old(clock.now)) ==> r.Ok?)
              && (r.Ok? ==> AllAccepted(rs, decrypt, clock.now) && Viewed(r.value, rs, decrypt) && input.left == rest)
  {
    hide RecordBytes, Plain, View, Whole;
    ghost var expected := ExpectedRecords(input.left, n, rs, rest) && AllWhole(rs);
    var newMessages: seq<Shown> := [];
    for i := 0 to n
      invariant decrypt.Fresh() && clock.now >= old(clock.now)
      invariant old(input.short) ==> input.short
      invariant expected && !input.short ==>
                  && input.left == RecordsBytes(rs[i..]) + rest
                  && AllAccepted(rs[..i], decrypt, clock.now) && Viewed(newMessages, rs[..i], decrypt)
    {
      ghost var before, shownBefore := clock.now, newMessages;
      ghost var rec := if expected then rs[i] else Record([], [], [], 0, 0, 0, 0);
      ghost var tail := if expected then RecordsBytes(rs[i + 1..]) + rest else [];
      if expected {
        assert rs[i..][0] == rs[i] && rs[i..][1..] == rs[i + 1..];
        assert RecordsBytes(rs[i..]) + rest == RecordBytes(rec) + tail;
      }
      var shown :- ReadMsgMessage(input, decrypt, clock, rec, tail);
      newMessages := newMessages + [shown];
      if expected && !input.short {
        assert newMessages[..i] == shownBefore;
        OneMore(newMessages, rs, i, decrypt, before, clock.now);
      }
    }
    assert expected ==> rs[..n] == rs;
    return Ok(newMessages);
  }

  lemma OneMore(shown: seq<Shown>, rs: seq<Record>, i: nat, decrypt: DecryptingCipher, before: int64, now: int64)
    requires i < |rs| && |shown| == i + 1 && before <= now
    requires AllAccepted(rs[..i], decrypt, before) && Viewed(shown[..i], rs[..i], decrypt)
    requires JavaAccepts(rs[i], Plain(decrypt, rs[i].message), now)
    requires shown[i] == View(rs[i], Plain(decrypt, rs[i].message).value)
    ensures AllAccepted(rs[..i + 1], decrypt, now) && Viewed(shown, rs[..i + 1], decrypt)
  {
    hide Plain, View;
    forall j | 0 <= j < i + 1
      ensures JavaAccepts(rs[j], Plain(decrypt, rs[j].message), now)
      ensures shown[j] == View(rs[j], Plain(decrypt, rs[j].message).value)
    {
      if j < i {
        assert rs[..i][j] == rs[j] && shown[..i][j] == shown[j];
      }
    }
  }
}
