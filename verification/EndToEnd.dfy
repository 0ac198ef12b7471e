/** The layers put together: what one user types is what the server stores and another user reads. */
module EndToEnd {
  import opened Wrappers
  import opened Bytes
  import opened Messages
  import opened Cbc
  import opened JavaCodec
  import opened Splitter
  import opened ClientText
  import opened Socket
  import opened Decoder
  import opened JavaReader
  import opened JavaDecoder
  import D = Database
  import S = Server
  import P = Polling

  /** The server's AES calls are the same cipher: decryption is only known where the padding is right. */
  ghost predicate SameCipher(c: S.Crypto, b: BlockCipher, iv: Block) {
    && (forall key: bytes, plain: bytes :: c.encrypt(key, plain) == Encrypt(b, key, iv, plain))
    && (forall key: bytes, data: bytes :: Decrypt(b, key, iv, data).Some? ==>
        c.decrypt(key, data) == Decrypt(b, key, iv, data).value)
  }

  lemma AsciiAppend(a: string, b: string)
    ensures Ascii(a + b) == Ascii(a) + Ascii(b)
  {
  }

  lemma {:induction false} PiecesAssemble(c: S.Crypto, cipher: Setup, pieces: seq<Piece>, records: seq<Record>,
                                          since: int64)
    requires SameCipher(c, cipher.c, cipher.iv) && Inverts(cipher.c, cipher.key)
    requires AreOnWire(pieces, records, since)
    requires forall i :: 0 <= i < |pieces| ==>
               pieces[i].encrypted == Encrypt(cipher.c, cipher.key, cipher.iv, Ascii(pieces[i].message))
    ensures S.Assembled(c, cipher.key, records) == Ascii(Flatten(Texts(pieces)))
  {
    hide Encrypt, Decrypt, Ascii;
    if pieces == [] {
      assert Ascii(Flatten<char>([])) == [];
    } else {
      var first := pieces[0];
      assert records[0] == OnWire(first, records[0].time);
      DecryptEncrypt(cipher.c, cipher.key, cipher.iv, Ascii(first.message));
      PiecesAssemble(c, cipher, pieces[1..], records[1..], since);
      assert Texts(pieces)[1..] == Texts(pieces[1..]);
      AsciiAppend(first.message, Flatten(Texts(pieces[1..])));
    }
  }

  /** Cutting, encrypting, sending, decrypting and joining give back the text, for every text. */
  lemma TextArrives(c: S.Crypto, cipher: Setup, m: Message, sender: string, receiver: string, text: string,
                    since: int64)
    requires SameCipher(c, cipher.c, cipher.iv) && Inverts(cipher.c, cipher.key)
    requires Carries(m, sender, receiver, text, cipher, since)
    ensures S.Assembled(c, cipher.key, m.records) == Ascii(text)
  {
    hide SameCipher, AreOnWire;
    var pieces: seq<Piece> :| IsSplit(pieces, sender, receiver, text, cipher) && AreOnWire(pieces, m.records, since);
    PiecesAssemble(c, cipher, pieces, m.records, since);
    PiecesJoin(pieces, sender, receiver, text, cipher);
  }

  /** A bound for a list with pieces of a text of this length. */
  function LargestPayload(length: nat): nat {
    4 * 4 + MAX_UNAME_LEN + (36 + 2 * MAX_UNAME_LEN + BLOCK) * PieceCount(length)
  }

  lemma {:induction false} RecordsFit(pieces: seq<Piece>, records: seq<Record>, since: int64)
    requires AreOnWire(pieces, records, since)
    requires forall i :: 0 <= i < |pieces| ==>
               && |pieces[i].sender| <= MAX_UNAME_LEN && |pieces[i].receiver| <= MAX_UNAME_LEN
               && |pieces[i].encrypted| == BLOCK
    ensures |RecordsBytes(records)| <= (36 + 2 * MAX_UNAME_LEN + BLOCK) * |pieces|
  {
    hide RecordBytes, OnWire;
    if pieces != [] {
      assert records[0] == OnWire(pieces[0], records[0].time);
      RecordFits(pieces[0], records[0].time);
      RecordsFit(pieces[1..], records[1..], since);
    }
  }

  lemma RecordFits(p: Piece, time: int64)
    requires |p.sender| <= MAX_UNAME_LEN && |p.receiver| <= MAX_UNAME_LEN && |p.encrypted| == BLOCK
    ensures |RecordBytes(OnWire(p, time))| <= 36 + 2 * MAX_UNAME_LEN + BLOCK
  {
    hide BigEndian;
  }

  /** What the send button writes is what the login counts as a text; none of its bytes can pass for a key. */
  lemma ListIsText(m: Message, sender: string, receiver: string, text: string, cipher: Setup, since: int64)
    requires Carries(m, sender, receiver, text, cipher, since)
    requires |sender| <= MAX_UNAME_LEN && |receiver| <= MAX_UNAME_LEN
    requires ValidUsername(Ascii(sender)) && ValidUsername(Ascii(receiver))
    requires LargestPayload(|text|) <= INT_MAX
    ensures IsText(m)
  {
    hide Encrypt, BigEndian, ValidUsername, Cut, Ascii;
    var pieces: seq<Piece> :| IsSplit(pieces, sender, receiver, text, cipher) && AreOnWire(pieces, m.records, since);
    forall i | 0 <= i < |pieces|
      ensures |pieces[i].sender| <= MAX_UNAME_LEN && |pieces[i].receiver| <= MAX_UNAME_LEN
      ensures |pieces[i].encrypted| == BLOCK
      ensures PieceOnWire(m.records[i])
    {
      assert IsPiece(pieces[i], i, sender, receiver, text, cipher);
      assert m.records[i] == OnWire(pieces[i], m.records[i].time);
    }
    RecordsFit(pieces, m.records, since);
  }

  /** None of the first `n` pieces of memory looks like a negative time. */
  predicate Harmless(stale: Memory, n: nat) {
    forall i :: 0 <= i < n ==> stale(i) >= 0
  }

  /**
   The server's decoder takes such a list exactly when the memory its record objects start from does not
   look like negative times.
   */
  lemma ListIsTaken(m: Message, sender: string, receiver: string, text: string, cipher: Setup, since: int64,
                    stale: Memory)
    requires Carries(m, sender, receiver, text, cipher, since) && since >= 0 && text != ""
    requires |sender| <= MAX_UNAME_LEN && |receiver| <= MAX_UNAME_LEN
    requires ValidUsername(Ascii(sender)) && ValidUsername(Ascii(receiver))
    requires LargestPayload(|text|) <= INT_MAX
    ensures |m.records| == PieceCount(|text|) && |Payload(m)| <= INT_MAX
    ensures Sendable(m, stale) <==> Harmless(stale, |m.records|)
    ensures DecodePayload(6, Payload(m), stale) == Ok(m) <==> Harmless(stale, |m.records|)
  {
    hide Encrypt, BigEndian, ValidUsername, Cut, Ascii, DecodePayload;
    var pieces: seq<Piece> :| IsSplit(pieces, sender, receiver, text, cipher) && AreOnWire(pieces, m.records, since);
    forall i | 0 <= i < |pieces|
      ensures |pieces[i].sender| <= MAX_UNAME_LEN && |pieces[i].receiver| <= MAX_UNAME_LEN
          && |pieces[i].encrypted| == BLOCK
      ensures m.records[i] == OnWire(pieces[i], m.records[i].time)
      ensures FineRecord(m.records[i], stale(0 + i)) <==> stale(i) >= 0
    {
      assert IsPiece(pieces[i], i, sender, receiver, text, cipher);
    }
    RecordsFit(pieces, m.records, since);
    assert m.records[0] == OnWire(pieces[0], m.records[0].time);
    RoundTrip(m, stale);
  }

  /** The server's side of the stream: decode a list, decrypt its records, join them; once for each list. */
  method ReceiveTexts(sock: TcpSocket, n: nat, c: S.Crypto, key: bytes, stale: nat -> Memory, ghost sent: seq<Message>,
                      ghost rest: bytes)
    returns (texts: seq<bytes>)
    requires sock.Valid() && n == |sent| && sock.Stream() == Frames(sent) + rest
    requires AllSendable(sent, 0, stale) && forall i :: 0 <= i < |sent| ==> sent[i].PollResponse?
    modifies sock
    ensures sock.Stream() == rest
    ensures |texts| == n && forall i :: 0 <= i < n ==> texts[i] == S.Assembled(c, key, sent[i].records)
  {
    hide Sendable, Frame, Socket.Readable;
    var received := ReceiveAll(sock, n, stale, sent, rest);
    texts := [];
    for i := 0 to n
      invariant |texts| == i && forall j :: 0 <= j < i ==> texts[j] == S.Assembled(c, key, sent[j].records)
      invariant sock.Stream() == rest
    {
      var text := S.Assemble(c, key, received[i].records);
      texts := texts + [text];
    }
  }

  /**
   From the send button to the text the server puts into the database, over any segmentation of the stream: each
   recipient's list yields exactly the text typed, once, in the order of the recipients up to the first name that is
   too long; several recipients are named in front of it, each on a line.
   */
  method SendAndReceive(username: string, recipients: seq<string>, text: string, cipher: EncryptingCipher, clock: Clock,
                        c: S.Crypto, network: bytes -> seq<bytes>, stale: nat -> Memory)
    returns (texts: seq<bytes>)
    requires cipher.Fresh() && Inverts(cipher.setup.c, cipher.setup.key)
        && SameCipher(c, cipher.setup.c, cipher.setup.iv)
    requires clock.now >= 0 && forall j :: 0 <= j < |recipients| ==>
        Harmless(stale(j), PieceCount(|FullText(recipients, text)|))
    requires ValidUsername(Ascii(username)) && forall i :: 0 <= i < |recipients| ==> ValidUsername(Ascii(recipients[i]))
    requires LargestPayload(|FullText(recipients, text)|) <= INT_MAX
    requires forall b :: Flatten(network(b)) == b && [] !in network(b)
    modifies cipher, clock
    ensures !(0 < |text| < MAX_MSG_LEN * MAX_MSGS) ==> texts == []
    ensures |texts| <= |recipients| && (texts != [] ==> |username| <= MAX_UNAME_LEN)
    ensures forall j :: 0 <= j < |texts| ==>
              && |recipients[j]| <= MAX_UNAME_LEN
              && texts[j] == if |recipients| == 1 then Ascii(text)
                             else Ascii("**Group Message**\nTo: " + Flatten(Lines(recipients)) + text)
    ensures 0 < |text| < MAX_MSG_LEN * MAX_MSGS && |texts| < |recipients| ==>
              |username| > MAX_UNAME_LEN || |recipients[|texts|]| > MAX_UNAME_LEN
  {
    hide SameCipher, Carries, Sendable, Frame, Inverts, Ascii, ValidUsername, Harmless;
    ghost var since := clock.now;
    var out := new DataOutput();
    ghost var sent := Send(username, recipients, text, cipher, out, clock);
    var sock := new TcpSocket(Segments(network(out.written)));
    ReadableSegments(network(out.written));
    forall j | 0 <= j < |sent|
      ensures Sendable(sent[j], stale(0 + j)) && sent[j].PollResponse?
      ensures S.Assembled(c, cipher.setup.key, sent[j].records) == Ascii(FullText(recipients, text))
    {
      CarriesList(sent[j], username, recipients[j], FullText(recipients, text), cipher.setup, since);
      ListIsTaken(sent[j], username, recipients[j], FullText(recipients, text), cipher.setup, since, stale(j));
      TextArrives(c, cipher.setup, sent[j], username, recipients[j], FullText(recipients, text), since);
    }
    assert Frames(sent) + [] == Frames(sent);
    var n := if 0 < |text| < MAX_MSG_LEN * MAX_MSGS then Served(username, recipients) else 0;
    texts := ReceiveTexts(sock, n, c, cipher.setup.key, stale, sent, []);
  }

  lemma CarriesList(m: Message, sender: string, receiver: string, text: string, cipher: Setup, since: int64)
    requires Carries(m, sender, receiver, text, cipher, since)
    ensures m.PollResponse?
  {
  }

  // ---------- The way back ----------

  /** What the client shows for a reply: the text, in one piece, under the sender's name. */
  function ShownReply(sender: bytes, user: bytes, text: bytes, time: int64): Shown {
    Shown(FromAscii(sender), FromAscii(user), FromAscii(text), 1, 1, time)
  }

  /** A reply the server sends is one the client understands, and shows as the stored text. */
  lemma ReplyIsShown(decrypt: DecryptingCipher, isKey: string -> bool, c: S.Crypto, t: D.Tables, k: nat, user: bytes,
                     time: int64, stale: int64, now: int64)
    requires Inverts(decrypt.c, decrypt.key) && SameCipher(c, decrypt.c, decrypt.iv)
    requires k < |t.transactions| && D.Joins(t, t.transactions[k], user)
    requires S.Reply(c, decrypt.key, t, k, user, time, stale).Some? && time <= now
    requires |user| <= MAX_UNAME_LEN && |t.users[t.transactions[k].sender.value].email| <= MAX_UNAME_LEN
    ensures var m := S.Reply(c, decrypt.key, t, k, user, time, stale).value;
            var sender := t.users[t.transactions[k].sender.value].email;
            && ForClient(m, isKey, decrypt, now)
            && |Payload(m)| <= INT_MAX
            && forall i :: IsRead(i, m, decrypt) ==>
                 i == PollResponseMessage(FromAscii(sender),
                                          [ShownReply(sender, user, t.messages[t.transactions[k].message.value], time)])
  {
    hide BigEndian, Decrypt, Encrypt, FromAscii, Inverts;
    var m := S.Reply(c, decrypt.key, t, k, user, time, stale).value;
    var text := t.messages[t.transactions[k].message.value];
    DecryptEncrypt(decrypt.c, decrypt.key, decrypt.iv, text);
    assert m.records[0].message == Encrypt(decrypt.c, decrypt.key, decrypt.iv, text);
    assert Plain(decrypt, m.records[0].message) == Some(text);
    assert m.records[1..] == [];
    assert RecordsBytes(m.records) == RecordBytes(m.records[0]) + RecordsBytes([]);
    forall i | IsRead(i, m, decrypt)
      ensures i.newMessages == [View(m.records[0], text)]
    {
      assert i.newMessages[0] == View(m.records[0], text);
    }
  }

  /** The client's reading of one reply, out of the frame the server wrote, unless a read is short. */
  method ReadReply(input: DataInput, isKey: string -> bool, decrypt: DecryptingCipher, clock: Clock,
                   ghost c: S.Crypto, ghost t: D.Tables,
                   ghost k: nat, ghost user: bytes, ghost time: int64, ghost stale: int64, ghost rest: bytes)
    returns (r: Result<Incoming>)
    requires decrypt.Fresh() && Inverts(decrypt.c, decrypt.key) && SameCipher(c, decrypt.c, decrypt.iv)
    requires k < |t.transactions| && D.Joins(t, t.transactions[k], user)
    requires var reply := S.Reply(c, decrypt.key, t, k, user, time, stale);
             reply.Some? && input.left == Frame(reply.value) + rest
    requires |user| <= MAX_UNAME_LEN && |t.users[t.transactions[k].sender.value].email| <= MAX_UNAME_LEN
    requires time <= clock.now
    modifies input, decrypt, clock
    ensures var sender := t.users[t.transactions[k].sender.value].email;
            var text := t.messages[t.transactions[k].message.value];
            !input.short ==>
              && r == Ok(PollResponseMessage(FromAscii(sender), [ShownReply(sender, user, text, time)]))
              && input.left == rest && decrypt.Fresh()
  {
    hide ForClient, IsRead, FromAscii, Inverts, Payload, Frame, SameCipher;
    ReplyIsShown(decrypt, isKey, c, t, k, user, time, stale, clock.now);
    r := ReadIncoming(input, isKey, decrypt, clock, S.Reply(c, decrypt.key, t, k, user, time, stale).value, rest);
  }

  // ---------- From one user to another ----------

  /** The server's thread makes one message row and one transactions row of a list: the text, from, to, when. */
  lemma TextIsStored(c: S.Crypto, cipher: Setup, m: Message, sender: string, receiver: string, text: string,
                     since: int64, results: D.Results, stale: Memory, t: D.Tables)
    requires SameCipher(c, cipher.c, cipher.iv) && Inverts(cipher.c, cipher.key)
    requires Carries(m, sender, receiver, text, cipher, since) && text != ""
    ensures m.records != []
    ensures var s := S.Chatting(Ascii(sender), cipher.key);
            var r := S.ChatStep(c, s, t, m, results, stale);
            && r.state == s && r.replies == []
            && r.tables.users == t.users && r.tables.messages == t.messages + [Ascii(text)]
            && |r.tables.transactions| == |t.transactions| + 1
            && r.tables.transactions[..|t.transactions|] == t.transactions
            && var row := r.tables.transactions[|t.transactions|];
               && row.sender == D.UserId(t.users, Ascii(sender)) && row.receiver == D.UserId(t.users, Ascii(receiver))
               && row.message.Some? && row.message.value < |r.tables.messages|
               && r.tables.messages[row.message.value] == Ascii(text)
               && row.seconds == S.Truncated(m.records[0].time, 1000)
  {
    hide SameCipher, Inverts, D.UserId, Ascii, Encrypt, Cut;
    TextArrives(c, cipher, m, sender, receiver, text, since);
    var pieces: seq<Piece> :| IsSplit(pieces, sender, receiver, text, cipher) && AreOnWire(pieces, m.records, since);
    assert IsPiece(pieces[0], 0, sender, receiver, text, cipher);
    assert m.records[0] == OnWire(pieces[0], m.records[0].time);
    assert (t.messages + [Ascii(text)])[|t.messages|] == Ascii(text);
  }

  /** Row `k` of these tables, of this second, is a text from one user to another. */
  predicate Holds(t: D.Tables, k: nat, sender: string, receiver: string, text: string, seconds: int) {
    && k < |t.transactions| && D.Joins(t, t.transactions[k], Ascii(receiver))
    && t.users[t.transactions[k].sender.value].email == Ascii(sender)
    && t.messages[t.transactions[k].message.value] == Ascii(text)
    && t.transactions[k].seconds == seconds
  }

  /** What other threads store later leaves the row as it is. */
  lemma StillHolds(t: D.Tables, t': D.Tables, k: nat, sender: string, receiver: string, text: string, seconds: int)
    requires Holds(t, k, sender, receiver, text, seconds)
    requires t'.users == t.users && t.messages <= t'.messages && t.transactions <= t'.transactions
    ensures Holds(t', k, sender, receiver, text, seconds)
  {
    hide Ascii;
  }

  /** The list one client sends becomes such a row. */
  lemma RowHolds(c: S.Crypto, cipher: Setup, m: Message, sender: string, receiver: string, text: string,
                 since: int64, results: D.Results, stale: Memory, t: D.Tables)
    requires SameCipher(c, cipher.c, cipher.iv) && Inverts(cipher.c, cipher.key)
    requires Carries(m, sender, receiver, text, cipher, since) && text != ""
    requires D.UserId(t.users, Ascii(sender)).Some? && D.UserId(t.users, Ascii(receiver)).Some?
    ensures m.records != []
    ensures var t' := S.ChatStep(c, S.Chatting(Ascii(sender), cipher.key), t, m, results, stale).tables;
            Holds(t', |t.transactions|, sender, receiver, text, S.Truncated(m.records[0].time, 1000))
  {
    hide SameCipher, Inverts, Ascii, Carries, S.ChatStep, S.Truncated;
    TextIsStored(c, cipher, m, sender, receiver, text, since, results, stale, t);
  }

  /**
   Whatever has been stored since, and in whatever order the database returns rows: a poll of the receiver is answered
   with the row of that text exactly when it asks for an earlier second and no row up to it in the result is
   refused. The text has at most 500 characters then; and what the receiver's client decrypts is the text the
   sender typed, which it shows unchanged exactly if it is ASCII.
   */
  lemma TypedIsRead(c: S.Crypto, cipher: Setup, m: Message, sender: string, receiver: string, text: string,
                    since: int64, results: D.Results, stale: Memory, t: D.Tables, later: D.Tables, key: bytes,
                    time: P.Millis, pollResults: D.Results, replyStale: Memory)
    requires SameCipher(c, cipher.c, cipher.iv) && Inverts(cipher.c, cipher.key) && Inverts(cipher.c, key)
    requires Carries(m, sender, receiver, text, cipher, since) && text != ""
    requires ValidUsername(Ascii(receiver))
    requires D.UserId(t.users, Ascii(sender)).Some? && D.UserId(t.users, Ascii(receiver)).Some?
    requires var t' := S.ChatStep(c, S.Chatting(Ascii(sender), cipher.key), t, m, results, stale).tables;
             later.users == t'.users && t'.messages <= later.messages && t'.transactions <= later.transactions
    ensures m.records != []
    ensures var k, u := |t.transactions|, Ascii(receiver);
            var hits := pollResults(later, S.Truncated(time, 1000), u);
            var r := S.ChatStep(c, S.Chatting(u, key), later, Poll(u, time), pollResults, replyStale);
            && S.Selected(later, hits, u) && |r.replies| <= |hits|
            && (k in hits <==> S.Truncated(m.records[0].time, 1000) > S.Truncated(time, 1000))
            && (forall j :: 0 <= j < |hits| && hits[j] == k ==>
                  (j < |r.replies| <==> P.AnswerableUpTo(P.Config(c, u, key), later, hits, j, replyStale)))
            && (forall j :: 0 <= j < |r.replies| && hits[j] == k ==>
                  && |text| <= 500 && r.replies[j].PollResponse? && |r.replies[j].records| == 1
                  && var rec := r.replies[j].records[0];
                     && rec.sender == Ascii(sender) && rec.receiver == u
                     && Decrypt(cipher.c, key, cipher.iv, rec.message) == Some(Ascii(text))
                     && (FromAscii(Ascii(text)) == text <==> IsAscii(text)))
  {
    hide SameCipher, Inverts, Ascii, FromAscii, Encrypt, Decrypt, Carries, ValidUsername, S.ChatStep, S.Reply,
      S.Truncated, P.AnswerableUpTo, D.IsResult, Holds;
    CarriesList(m, sender, receiver, text, cipher, since);
    RowHolds(c, cipher, m, sender, receiver, text, since, results, stale, t);
    var k, u, seconds := |t.transactions|, Ascii(receiver), S.Truncated(m.records[0].time, 1000);
    StillHolds(S.ChatStep(c, S.Chatting(Ascii(sender), cipher.key), t, m, results, stale).tables, later, k, sender,
               receiver, text, seconds);
    RowIsAnswered(c, later, k, sender, receiver, text, seconds, key, time, pollResults, replyStale);
    var hits := pollResults(later, S.Truncated(time, 1000), u);
    var r := S.ChatStep(c, S.Chatting(u, key), later, Poll(u, time), pollResults, replyStale);
    forall j | 0 <= j < |r.replies| && hits[j] == k
      ensures && |text| <= 500 && r.replies[j].PollResponse? && |r.replies[j].records| == 1
              && r.replies[j].records[0].sender == Ascii(sender) && r.replies[j].records[0].receiver == u
              && Decrypt(cipher.c, key, cipher.iv, r.replies[j].records[0].message) == Some(Ascii(text))
    {
      ReplyCarries(c, cipher, later, k, sender, receiver, text, seconds, key, time, replyStale(j));
    }
    AsciiRoundTrip(text);
  }

  /**
   A poll is answered with a row exactly if that is of a later second and no row up to it in the result is refused.
   */
  lemma RowIsAnswered(c: S.Crypto, t: D.Tables, k: nat, sender: string, receiver: string, text: string, seconds: int,
                      key: bytes, time: P.Millis, results: D.Results, stale: Memory)
    requires Holds(t, k, sender, receiver, text, seconds) && ValidUsername(Ascii(receiver))
    ensures var u := Ascii(receiver);
            var hits := results(t, S.Truncated(time, 1000), u);
            var r := S.ChatStep(c, S.Chatting(u, key), t, Poll(u, time), results, stale);
            && S.Selected(t, hits, u) && |r.replies| <= |hits|
            && (k in hits <==> seconds > S.Truncated(time, 1000))
            && (forall j :: 0 <= j < |hits| ==>
                  (j < |r.replies| <==> P.AnswerableUpTo(P.Config(c, u, key), t, hits, j, stale)))
            && (forall j :: 0 <= j < |r.replies| && hits[j] == k ==>
                  k < |t.transactions| && D.Joins(t, t.transactions[k], u)
                  && Some(r.replies[j]) == S.Reply(c, key, t, k, u, time, stale(j)))
  {
    hide ValidUsername, Ascii, S.ChatStep, S.Reply, S.Truncated, S.Unrefused, P.AnswerableUpTo, D.Joins;
    var u := Ascii(receiver);
    var hits := results(t, S.Truncated(time, 1000), u);
    S.PollReplies(c, S.Chatting(u, key), t, time, results, stale);
    forall j | 0 <= j < |hits|
      ensures S.Unrefused(c, key, t, hits, j, u, time, stale)
         <==> P.AnswerableUpTo(P.Config(c, u, key), t, hits, j, stale)
    {
      UnrefusedIsAnswerable(P.Config(c, u, key), t, hits, j, time, stale);
    }
  }

  lemma UnrefusedIsAnswerable(cfg: P.Config, t: D.Tables, hits: seq<nat>, i: nat, time: P.Millis, stale: Memory)
    requires i < |hits| && S.Selected(t, hits, cfg.user) && ValidUsername(cfg.user)
    ensures S.Unrefused(cfg.crypto, cfg.key, t, hits, i, cfg.user, time, stale)
       <==> P.AnswerableUpTo(cfg, t, hits, i, stale)
  {
    hide ValidUsername, S.Reply, P.Answerable, D.Joins;
    forall j | 0 <= j < |hits|
      ensures S.HasReply(cfg.crypto, cfg.key, t, hits, j, cfg.user, time, stale)
         <==> P.Answerable(cfg, t, hits[j], stale(j))
    {
      P.ReplyExists(cfg, t, hits[j], time, stale(j));
    }
  }

  lemma ReplyCarries(c: S.Crypto, cipher: Setup, t: D.Tables, k: nat, sender: string, receiver: string,
                     text: string, seconds: int, key: bytes, time: int64, stale: int64)
    requires SameCipher(c, cipher.c, cipher.iv) && Inverts(cipher.c, key)
    requires Holds(t, k, sender, receiver, text, seconds)
    requires S.Reply(c, key, t, k, Ascii(receiver), time, stale).Some?
    ensures var m := S.Reply(c, key, t, k, Ascii(receiver), time, stale).value;
            && |text| <= 500 && m.PollResponse? && |m.records| == 1
            && m.records[0].sender == Ascii(sender) && m.records[0].receiver == Ascii(receiver)
            && Decrypt(cipher.c, key, cipher.iv, m.records[0].message) == Some(Ascii(text))
  {
    hide SameCipher, Inverts, Encrypt, Decrypt, ValidUsername;
    CipherIs(c, cipher.c, cipher.iv, key, Ascii(text));
    DecryptEncrypt(cipher.c, key, cipher.iv, Ascii(text));
  }

  lemma CipherIs(c: S.Crypto, b: BlockCipher, iv: Block, key: bytes, plain: bytes)
    requires SameCipher(c, b, iv)
    ensures c.encrypt(key, plain) == Encrypt(b, key, iv, plain)
  {
  }
}
