/** The client's send button: a text cut into pieces, each piece encrypted, one list to each recipient. */
module Splitter {
  import opened Wrappers
  import opened Bytes
  import opened Messages
  import opened Cbc
  import opened JavaCodec

  function PieceCount(length: nat): nat {
    (length + MAX_MSG_LEN - 1) / MAX_MSG_LEN
  }

  function Cut(text: string, i: nat): string
    requires i < PieceCount(|text|)
  {
    text[MAX_MSG_LEN * i..if MAX_MSG_LEN * (i + 1) <= |text| then MAX_MSG_LEN * (i + 1) else |text|]
  }

  /** Math.ceil of a quotient of doubles; the quotients here are far from the next integer or equal to it. */
  function Ceil(x: real): int {
    -(-x).Floor
  }

  lemma CeilCounts(length: nat)
    ensures Ceil(length as real / 15.0) == PieceCount(length)
  {
    var x := length as real / 15.0;
    var n := Ceil(x);
    assert n as real - 1.0 < x <= n as real;
    assert x * 15.0 == length as real;
  }

  /** Pieces are contiguous, numbered from 1, of 1 to 15 characters, and encrypted whole. */
  ghost predicate IsSplit(pieces: seq<Piece>, sender: string, receiver: string, text: string, cipher: Setup) {
    && |text| <= INT_MAX && |pieces| == PieceCount(|text|)
    && forall i :: 0 <= i < |pieces| ==> IsPiece(pieces[i], i, sender, receiver, text, cipher)
  }

  ghost predicate IsPiece(p: Piece, i: nat, sender: string, receiver: string, text: string, cipher: Setup)
    requires |text| <= INT_MAX && i < PieceCount(|text|)
  {
    && p == Piece(sender, receiver, Cut(text, i), Encrypt(cipher.c, cipher.key, cipher.iv, Ascii(Cut(text, i))),
                  |Cut(text, i)|, i + 1, PieceCount(|text|))
    && 1 <= |Cut(text, i)| <= MAX_MSG_LEN
  }

  /** The inner loop of the send button, with its ceil, its remainder and its two conditional ends. */
  method Split(username: string, recipientUsername: string, message: string, cipher: EncryptingCipher, clock: Clock)
    returns (r: Result<seq<Piece>>)
    requires cipher.Fresh() && |message| <= INT_MAX
    modifies cipher, clock
    ensures clock.now >= old(clock.now)
    ensures r.Ok? ==> cipher.Fresh() && IsSplit(r.value, username, recipientUsername, message, cipher.setup)
    ensures |username| <= MAX_UNAME_LEN && |recipientUsername| <= MAX_UNAME_LEN ==> r.Ok?
    ensures r.Ok? && message != [] ==> |username| <= MAX_UNAME_LEN && |recipientUsername| <= MAX_UNAME_LEN
  {
    hide Cut, IsPiece;
    var outMsgs: seq<Piece> := [];
    CeilCounts(|message|);
    var messages := Ceil(|message| as real / 15.0);
    for i := 1 to messages + 1
      invariant clock.now >= old(clock.now) && cipher.Fresh()
      invariant |outMsgs| == i - 1
      invariant forall j :: 0 <= j < |outMsgs| ==> IsPiece(outMsgs[j], j, username, recipientUsername, message,
                                                           cipher.setup)
      invariant i > 1 ==> |username| <= MAX_UNAME_LEN && |recipientUsername| <= MAX_UNAME_LEN
    {
      var messageBit, messageLen := NextBit(message, i);
      var timestamp := clock.CurrentTimeMillis();
      var piece :- NewMsgMessage(|username|, username, |recipientUsername|, recipientUsername, messageBit, messageLen,
                                 i, messages, timestamp, cipher, clock);
      PieceIs(piece, i - 1, username, recipientUsername, message, cipher.setup);
      outMsgs := outMsgs + [piece];
    }
    return Ok(outMsgs);
  }

  /** Piece `i`, counted from 1, and its length. */
  method NextBit(message: string, i: nat) returns (messageBit: string, messageLen: nat)
    requires 1 <= i <= PieceCount(|message|)
    ensures messageBit == Cut(message, i - 1) && 1 <= messageLen == |messageBit| <= MAX_MSG_LEN
  {
    messageLen := if |message| - (i - 1) * MAX_MSG_LEN < MAX_MSG_LEN then |message| % MAX_MSG_LEN else MAX_MSG_LEN;
    var max := if messageLen < MAX_MSG_LEN then |message| else MAX_MSG_LEN * i;
    messageBit := message[(i - 1) * MAX_MSG_LEN..max];
  }

  lemma PieceIs(p: Piece, i: nat, sender: string, receiver: string, text: string, cipher: Setup)
    requires |text| <= INT_MAX && i < PieceCount(|text|)
    requires p == Piece(sender, receiver, Cut(text, i), Encrypt(cipher.c, cipher.key, cipher.iv, Ascii(Cut(text, i))),
                        |Cut(text, i)|, i + 1, PieceCount(|text|))
    requires 1 <= |Cut(text, i)| <= MAX_MSG_LEN
    ensures IsPiece(p, i, sender, receiver, text, cipher)
  {
  }

  function Texts(pieces: seq<Piece>): seq<string> {
    seq(|pieces|, i requires 0 <= i < |pieces| => pieces[i].message)
  }

  /** Read in order the pieces are the text. */
  lemma {:induction false} CutsJoin(text: string, n: nat)
    requires n <= PieceCount(|text|)
    ensures Flatten(seq(n, i requires 0 <= i < n => Cut(text, i)))
         == text[..if MAX_MSG_LEN * n <= |text| then MAX_MSG_LEN * n else |text|]
  {
    var cuts := seq(n, i requires 0 <= i < n => Cut(text, i));
    if n > 0 {
      var front := seq(n - 1, i requires 0 <= i < n - 1 => Cut(text, i));
      assert cuts == front + [Cut(text, n - 1)];
      FlattenAppend(front, [Cut(text, n - 1)]);
      assert Flatten([Cut(text, n - 1)]) == Cut(text, n - 1) + Flatten<char>([]);
      CutsJoin(text, n - 1);
    }
  }

  lemma PiecesJoin(pieces: seq<Piece>, sender: string, receiver: string, text: string, cipher: Setup)
    requires IsSplit(pieces, sender, receiver, text, cipher)
    ensures Flatten(Texts(pieces)) == text
  {
    var n := PieceCount(|text|);
    var cuts := seq(n, i requires 0 <= i < n => Cut(text, i));
    forall i | 0 <= i < n
      ensures Texts(pieces)[i] == cuts[i]
    {
      assert IsPiece(pieces[i], i, sender, receiver, text, cipher);
    }
    assert Texts(pieces) == cuts;
    CutsJoin(text, n);
  }

  /** Each name on a line of its own. */
  function Lines(names: seq<string>): seq<string> {
    seq(|names|, i requires 0 <= i < |names| => names[i] + "\n")
  }

  function Greeting(names: seq<string>): (greeting: string)
    ensures greeting == Flatten(Lines(names))
  {
    if names == [] then ""
    else
      assert Lines(names)[1..] == Lines(names[1..]);
      names[0] + "\n" + Greeting(names[1..])
  }

  /** What is sent: the text typed; several recipients are named in front of it. */
  function FullText(recipients: seq<string>, text: string): (full: string)
    ensures |recipients| <= 1 ==> full == text
    ensures |recipients| > 1 ==> full == "**Group Message**\nTo: " + Flatten(Lines(recipients)) + text
  {
    (if |recipients| > 1 then "**Group Message**\nTo: " + Greeting(recipients) else "") + text
  }

  method BuildText(recipientUsernames: seq<string>, text: string) returns (message: string)
    ensures message == FullText(recipientUsernames, text)
  {
    var recipients := "";
    if |recipientUsernames| > 1 {
      recipients := recipients + "**Group Message**\nTo: ";
      for i := 0 to |recipientUsernames|
        invariant recipients + Greeting(recipientUsernames[i..])
               == "**Group Message**\nTo: " + Greeting(recipientUsernames)
      {
        assert recipientUsernames[i..][1..] == recipientUsernames[i + 1..];
        recipients := recipients + recipientUsernames[i] + "\n";
      }
    }
    message := recipients + text;
  }

  /** One list for one recipient, as it stands on the wire. */
  ghost predicate Carries(m: Message, sender: string, receiver: string, text: string, cipher: Setup, since: int64) {
    && m.PollResponse?
    && m.user == Ascii(sender) && m.listNum == 1 && m.totalList == 1
    && exists pieces :: IsSplit(pieces, sender, receiver, text, cipher) && AreOnWire(pieces, m.records, since)
  }

  /** The recipients served before the first one whose name the constructor refuses. */
  function Served(username: string, recipients: seq<string>): (n: nat)
    ensures n <= |recipients| && (n > 0 ==> |username| <= MAX_UNAME_LEN)
    ensures forall j :: 0 <= j < n ==> |recipients[j]| <= MAX_UNAME_LEN
    ensures n < |recipients| ==> |username| > MAX_UNAME_LEN || |recipients[n]| > MAX_UNAME_LEN
  {
    if recipients == [] || |username| > MAX_UNAME_LEN || |recipients[0]| > MAX_UNAME_LEN then 0
    else
      assert forall j :: 0 < j < |recipients| ==> recipients[j] == recipients[1..][j - 1];
      1 + Served(username, recipients[1..])
  }

  /** Field by field: as many records as fifteen characters each need, in order, each with its part of the text. */
  lemma CarriesPieces(m: Message, sender: string, receiver: string, text: string, cipher: Setup, since: int64)
    requires Carries(m, sender, receiver, text, cipher, since)
    ensures var n := |m.records|;
            && m.user == Ascii(sender) && m.listNum == 1 && m.totalList == 1
            && 15 * n >= |text| && 15 * n < |text| + 15
            && forall i :: 0 <= i < n ==>
                 var r, part := m.records[i], text[15 * i..if i == n - 1 then |text| else 15 * (i + 1)];
                 && r.sender == Ascii(sender) && r.receiver == Ascii(receiver)
                 && r.message == Encrypt(cipher.c, cipher.key, cipher.iv, Ascii(part)) && r.decryptLen == |part|
                 && r.number == i + 1 && r.total == n && r.time >= since
  {
    hide Encrypt, Ascii;
    var pieces: seq<Piece> :| IsSplit(pieces, sender, receiver, text, cipher) && AreOnWire(pieces, m.records, since);
    forall i | 0 <= i < |pieces|
      ensures m.records[i] == OnWire(pieces[i], m.records[i].time) && m.records[i].time >= since
      ensures pieces[i].message == text[15 * i..if i == |pieces| - 1 then |text| else 15 * (i + 1)]
    {
      assert IsPiece(pieces[i], i, sender, receiver, text, cipher);
    }
  }

  method Send(username: string, recipientUsernames: seq<string>, text: string, cipher: EncryptingCipher,
              out: DataOutput, clock: Clock)
    returns (ghost sent: seq<Message>)
    requires cipher.Fresh() && |FullText(recipientUsernames, text)| <= INT_MAX
    modifies cipher, out, clock
    ensures out.written == old(out.written) + Frames(sent)
    ensures |sent| == if 0 < |text| < MAX_MSG_LEN * MAX_MSGS then Served(username, recipientUsernames) else 0
    ensures |sent| <= |recipientUsernames|
    ensures sent != [] ==> |username| <= MAX_UNAME_LEN
    ensures forall j :: 0 <= j < |sent| ==>
              && |recipientUsernames[j]| <= MAX_UNAME_LEN
              && Carries(sent[j], username, recipientUsernames[j], FullText(recipientUsernames, text), cipher.setup,
                         old(clock.now))
  {
    hide Carries, Frame, Frames, Served, FullText;
    sent := [];
    NoFrames();
    if !(0 < |text| < MAX_MSG_LEN * MAX_MSGS) {
      return;
    }
    var message := BuildText(recipientUsernames, text);
    TextIsLonger(recipientUsernames, text);
    assert recipientUsernames[0..] == recipientUsernames;
    for i := 0 to |recipientUsernames|
      invariant cipher.Fresh() && clock.now >= old(clock.now)
      invariant |sent| == i
      invariant out.written == old(out.written) + Frames(sent)
      invariant i + Served(username, recipientUsernames[i..]) == Served(username, recipientUsernames)
      invariant sent != [] ==> |username| <= MAX_UNAME_LEN
      invariant forall j :: 0 <= j < |sent| ==>
                  && |recipientUsernames[j]| <= MAX_UNAME_LEN
                  && Carries(sent[j], username, recipientUsernames[j], FullText(recipientUsernames, text), cipher.setup,
                             old(clock.now))
    {
      var recipientUsername := recipientUsernames[i];
      NextServed(username, recipientUsernames, i);
      ghost var m;
      var r;
      r, m := SendOne(username, recipientUsername, message, cipher, out, clock, old(clock.now));
      if r.Err? {
        return;
      }
      FramesAppend(sent, m);
      sent := sent + [m];
    }
    NoneServed(username, recipientUsernames);
  }

  lemma NoFrames()
    ensures Frames([]) == []
  {
  }

  lemma TextIsLonger(recipients: seq<string>, text: string)
    ensures |FullText(recipients, text)| >= |text|
  {
  }

  lemma NextServed(username: string, recipients: seq<string>, i: nat)
    requires i < |recipients|
    ensures Served(username, recipients[i..])
         == if |username| > MAX_UNAME_LEN || |recipients[i]| > MAX_UNAME_LEN then 0
             else 1 + Served(username, recipients[i + 1..])
  {
    assert recipients[i..][1..] == recipients[i + 1..];
  }

  lemma NoneServed(username: string, recipients: seq<string>)
    ensures Served(username, recipients[|recipients|..]) == 0
  {
  }

  /** One recipient: the text is split, and the list goes out. */
  method SendOne(username: string, recipientUsername: string, message: string, cipher: EncryptingCipher,
                 out: DataOutput, clock: Clock, ghost since: int64)
    returns (r: Result<()>, ghost m: Message)
    requires cipher.Fresh() && 0 < |message| <= INT_MAX && since <= clock.now
    modifies cipher, out, clock
    ensures clock.now >= old(clock.now)
    ensures r.Ok? <==> |username| <= MAX_UNAME_LEN && |recipientUsername| <= MAX_UNAME_LEN
    ensures r.Ok? ==>
              && cipher.Fresh() && out.written == old(out.written) + Frame(m)
              && Carries(m, username, recipientUsername, message, cipher.setup, since)
    ensures r.Err? ==> out.written == old(out.written)
  {
    hide IsSplit, AreOnWire, Frame;
    m := PollResponse([], 0, 0, []);
    var outMsgs := Split(username, recipientUsername, message, cipher, clock);
    if outMsgs.Err? {
      r := Err(outMsgs.error);
      return;
    }
    SomePieces(outMsgs.value, username, recipientUsername, message, cipher.setup);
    ghost var now, records := clock.now, [];
    r, records := SendPollResponse(username, 1, 1, outMsgs.value, out, clock);
    m := PollResponse(Ascii(username), 1, 1, records);
    LaterIsSince(outMsgs.value, records, now, since);
  }

  lemma SomePieces(pieces: seq<Piece>, sender: string, receiver: string, text: string, cipher: Setup)
    requires IsSplit(pieces, sender, receiver, text, cipher) && text != ""
    ensures pieces != []
  {
  }

  lemma LaterIsSince(pieces: seq<Piece>, records: seq<Record>, since: int64, earlier: int64)
    requires AreOnWire(pieces, records, since) && earlier <= since
    ensures AreOnWire(pieces, records, earlier)
  {
  }
}
