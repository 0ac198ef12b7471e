/** One client's thread in the server: the login dialogue and the chat loop. */
module Server {
  import opened Wrappers
  import opened Bytes
  import opened Messages
  import opened Hashing
  import opened Database

  const KEYSIZE := 16

  /** The library calls: SHA-256, RSA key text and unwrapping, AES in both directions. */
  datatype Crypto = Crypto(
    sha: bytes -> bytes,
    publicPem: bytes -> bytes,                  // from a private key: the first 271 bytes of the saved public key
    unwrap: (bytes, bytes) -> Option<bytes>,    // `None`: the decryptor throws
    encrypt: (bytes, bytes) -> bytes,
    decrypt: (bytes, bytes) -> bytes)

  datatype State =
    | AwaitLogin
    | AwaitResponse(user: bytes, challenge: bytes)
    | AwaitKeyRequest(user: bytes)
    | AwaitWrapped(user: bytes, privateKey: bytes)
    | Chatting(user: bytes, key: bytes)
    | Closed
    | Lost        // an empty list was indexed: C++ says nothing about what follows

  predicate InLogin(s: State) {
    s.AwaitLogin? || s.AwaitResponse? || s.AwaitKeyRequest? || s.AwaitWrapped?
  }

  predicate HashMatches(c: Crypto, users: seq<User>, user: bytes, challenge: bytes, nonce: bytes, hash: bytes) {
    hash == Ascii(ServerHash(c.sha, challenge, nonce, Password(users, user)))
  }

  /** getEncSymKey: empty unless a wrapped key came in. */
  function EncSymKey(k: Key): bytes {
    if k.WrappedKey? then k.wrapped else []
  }

  /** One message of the login dialogue: the next state and what is sent. */
  function LoginStep(c: Crypto, users: seq<User>, s: State, m: Message, challenge: bytes, privateKey: bytes)
    : (State, seq<Message>)
    requires InLogin(s)
  {
    match s
    case AwaitLogin =>
      if m.Login? && |challenge| == CHALLENGE_LENGTH then (AwaitResponse(m.user, challenge), [Challenge(challenge)])
      else (Closed, [])
    case AwaitResponse(user, sent) =>
      if !m.Response? then (Closed, [])
      else if Password(users, user) == [] then (Closed, [Ack(DefaultError, Party.Server)])
      else if HashMatches(c, users, user, sent, m.nonce, m.hash)
          then (AwaitKeyRequest(user), [Ack(PasswordAuth, Party.Server)])
      else (Closed, [])
    case AwaitKeyRequest(user) =>
      if m.Login? && PemLayout(c.publicPem(privateKey)) then
        (AwaitWrapped(user, privateKey), [Login([], PublicKey(c.publicPem(privateKey)))])
      else (Closed, [])
    case AwaitWrapped(user, private_) =>
      if !m.Login? then (Closed, [])
      else
        var key := c.unwrap(private_, EncSymKey(m.key));
        if key.Some? && |key.value| == KEYSIZE then (Chatting(user, key.value), [Ack(Success, Party.Server)])
        else (Closed, [])
  }

  /** The texts of the records decrypted one by one and joined. */
  function Assembled(c: Crypto, key: bytes, records: seq<Record>): bytes {
    if records == [] then [] else c.decrypt(key, records[0].message) + Assembled(c, key, records[1..])
  }

  /** Integer division of a C++ long. */
  function Truncated(n: int, d: int): int
    requires d > 0
  {
    if n >= 0 then n / d else -(-n / d)
  }

  /** Towards zero, on both sides of it. */
  lemma TruncatedIs(n: int, d: int)
    requires d > 0
    ensures n >= 0 ==> Truncated(n, d) * d <= n < (Truncated(n, d) + 1) * d
    ensures n <= 0 ==> (Truncated(n, d) - 1) * d < n <= Truncated(n, d) * d
  {
    if n < 0 {
      var q := -n / d;
      assert -n == q * d + -n % d;
      assert Truncated(n, d) == -q;
      assert (-q - 1) * d == -(q * d) - d && -q * d == -(q * d);
    } else {
      assert n == n / d * d + n % d;
      assert (n / d + 1) * d == n / d * d + d;
    }
  }

  /** The reply for one selected row, if every setter accepts its fields. */
  function Reply(c: Crypto, key: bytes, t: Tables, k: nat, user: bytes, time: int64, stale: int64): Option<Message>
    requires k < |t.transactions| && Joins(t, t.transactions[k], user)
  {
    var row := t.transactions[k];
    var text := t.messages[row.message.value];
    var sender := t.users[row.sender.value].email;
    if ValidUsername(sender) && ValidUsername(user) && |text| <= MAX_MESSAGE_LENGTH && stale >= 0 && time >= 0
    then Some(PollResponse(sender, 1, 1, [Record(sender, user, c.encrypt(key, text), |text|, 1, 1, time)]))
    else None
  }

  /** The rows a query has selected for a user. */
  predicate Selected(t: Tables, hits: seq<nat>, user: bytes) {
    forall i :: 0 <= i < |hits| ==> hits[i] < |t.transactions| && Joins(t, t.transactions[hits[i]], user)
  }

  lemma ResultIsSelected(t: Tables, hits: seq<nat>, seconds: int, user: bytes)
    requires IsResult(t, seconds, user, hits)
    ensures Selected(t, hits, user)
  {
    forall i | 0 <= i < |hits|
      ensures hits[i] < |t.transactions| && Joins(t, t.transactions[hits[i]], user)
    {
      assert hits[i] in hits;
    }
  }

  /**
   Replies are sent row by row, here from row `k` of the selection on; the first row a setter refuses ends the session.
   Each reply is built in memory of its own.
   */
  function Replies(c: Crypto, key: bytes, t: Tables, hits: seq<nat>, k: nat, user: bytes, time: int64, stale: Memory)
    : (r: (seq<Message>, bool))
    requires k <= |hits| && Selected(t, hits, user)
    decreases |hits| - k
  {
    if k == |hits| then ([], true)
    else
      var first := Reply(c, key, t, hits[k], user, time, stale(k));
      if first.None? then ([], false)
      else
        var rest := Replies(c, key, t, hits, k + 1, user, time, stale);
        ([first.value] + rest.0, rest.1)
  }

  /**
   Reply i answers row i of the selection, and is sent exactly when no row up to it is refused; the session goes on
   exactly when none at all is.
   */
  lemma {:induction false} RepliesAre(c: Crypto, key: bytes, t: Tables, hits: seq<nat>, k: nat, user: bytes,
                                      time: int64, stale: Memory)
    requires k <= |hits| && Selected(t, hits, user)
    ensures var r := Replies(c, key, t, hits, k, user, time, stale);
            && k + |r.0| <= |hits| && (r.1 <==> k + |r.0| == |hits|)
            && (forall i :: k <= i < k + |r.0| ==> Some(r.0[i - k]) == Reply(c, key, t, hits[i], user, time, stale(i)))
            && (k + |r.0| < |hits| ==> Reply(c, key, t, hits[k + |r.0|], user, time, stale(k + |r.0|)).None?)
    decreases |hits| - k
  {
    hide Reply;
    if k < |hits| {
      RepliesAre(c, key, t, hits, k + 1, user, time, stale);
    }
  }

  /** The transactions row a list leads to, once its text is in the table. */
  function StoredRow(t: Tables, sender: bytes, receiver: bytes, text: bytes, time: int64): Row {
    Row(UserId(t.users, sender), UserId(t.users, receiver), MessageId(t.messages, text), Truncated(time, 1000))
  }

  datatype Reaction = Reaction(state: State, replies: seq<Message>, tables: Tables)

  /** One message in the chat loop; `results` are the database's, in whatever order. */
  function ChatStep(c: Crypto, s: State, t: Tables, m: Message, results: Results, stale: Memory): Reaction
    requires s.Chatting?
  {
    match m
    case Poll(user, time) =>
      if user != s.user || time < 0 then Reaction(Closed, [], t)
      else
        var hits := results(t, Truncated(time, 1000), user);
        ResultIsSelected(t, hits, Truncated(time, 1000), user);
        var r := Replies(c, s.key, t, hits, 0, user, time, stale);
        Reaction(if r.1 then s else Closed, r.0, t)
    case PollResponse(_, _, _, records) =>
      if records == [] then Reaction(Lost, [], t)
      else if records[0].sender != s.user then Reaction(Closed, [], t)
      else
        var text := Assembled(c, s.key, records);
        var t1 := t.(messages := t.messages + [text]);
        var row := StoredRow(t1, s.user, records[0].receiver, text, records[0].time);
        Reaction(s, [], t1.(transactions := t.transactions + [row]))
    case _ => Reaction(s, [], t)
  }

  /** No setter refuses the fields of the reply for row `i` of the selection. */
  predicate HasReply(c: Crypto, key: bytes, t: Tables, hits: seq<nat>, i: nat, user: bytes, time: int64, stale: Memory)
    requires i < |hits| && Selected(t, hits, user)
  {
    Reply(c, key, t, hits[i], user, time, stale(i)).Some?
  }

  /** No row of the selection up to row `i` is refused. */
  predicate Unrefused(c: Crypto, key: bytes, t: Tables, hits: seq<nat>, i: nat, user: bytes, time: int64, stale: Memory)
    requires i < |hits| && Selected(t, hits, user)
  {
    forall i' :: 0 <= i' <= i ==> HasReply(c, key, t, hits, i', user, time, stale)
  }

  /**
   A poll of the session's user is answered row by row of the selection: a row has its reply exactly if no row of the
   selection up to it is refused, and the session goes on exactly if none at all is.
   */
  lemma PollReplies(c: Crypto, s: State, t: Tables, time: int64, results: Results, stale: Memory)
    requires s.Chatting? && time >= 0
    ensures var hits := results(t, Truncated(time, 1000), s.user);
            var r := ChatStep(c, s, t, Poll(s.user, time), results, stale);
            && IsResult(t, Truncated(time, 1000), s.user, hits)
            && Selected(t, hits, s.user) && r.tables == t && |r.replies| <= |hits|
            && (forall i :: 0 <= i < |r.replies| ==>
                  Some(r.replies[i]) == Reply(c, s.key, t, hits[i], s.user, time, stale(i)))
            && (forall i :: 0 <= i < |hits| ==>
                  (i < |r.replies| <==> Unrefused(c, s.key, t, hits, i, s.user, time, stale)))
            && r.state == if |r.replies| == |hits| then s else Closed
  {
    hide Reply, Replies, Joins, Truncated, Unrefused, IsResult, Selected;
    var hits := results(t, Truncated(time, 1000), s.user);
    ResultIsSelected(t, hits, Truncated(time, 1000), s.user);
    RepliesUnrefused(c, s.key, t, hits, s.user, time, stale);
  }

  lemma RepliesUnrefused(c: Crypto, key: bytes, t: Tables, hits: seq<nat>, user: bytes, time: int64, stale: Memory)
    requires Selected(t, hits, user)
    ensures var r := Replies(c, key, t, hits, 0, user, time, stale);
            && |r.0| <= |hits| && (r.1 <==> |r.0| == |hits|)
            && (forall i :: 0 <= i < |r.0| ==> Some(r.0[i]) == Reply(c, key, t, hits[i], user, time, stale(i)))
            && (forall i :: 0 <= i < |hits| ==> (i < |r.0| <==> Unrefused(c, key, t, hits, i, user, time, stale)))
  {
    hide Reply, Replies, Joins, HasReply;
    RepliesCount(c, key, t, hits, user, time, stale);
    forall i | 0 <= i < |Replies(c, key, t, hits, 0, user, time, stale).0|
      ensures Some(Replies(c, key, t, hits, 0, user, time, stale).0[i])
          == Reply(c, key, t, hits[i], user, time, stale(i))
      ensures HasReply(c, key, t, hits, i, user, time, stale)
    {
      ReplyAt(c, key, t, hits, i, user, time, stale);
    }
  }

  lemma RepliesCount(c: Crypto, key: bytes, t: Tables, hits: seq<nat>, user: bytes, time: int64, stale: Memory)
    requires Selected(t, hits, user)
    ensures var r := Replies(c, key, t, hits, 0, user, time, stale);
            && |r.0| <= |hits| && (r.1 <==> |r.0| == |hits|)
            && (|r.0| < |hits| ==> !HasReply(c, key, t, hits, |r.0|, user, time, stale))
  {
    hide Reply, Replies, Joins;
    RepliesAre(c, key, t, hits, 0, user, time, stale);
  }

  lemma ReplyAt(c: Crypto, key: bytes, t: Tables, hits: seq<nat>, i: nat, user: bytes, time: int64, stale: Memory)
    requires Selected(t, hits, user)
    ensures var r := Replies(c, key, t, hits, 0, user, time, stale).0;
            i < |r| ==>
              && i < |hits| && Some(r[i]) == Reply(c, key, t, hits[i], user, time, stale(i))
              && HasReply(c, key, t, hits, i, user, time, stale)
  {
    hide Reply, Replies, Joins;
    RepliesAre(c, key, t, hits, 0, user, time, stale);
    assert i < |hits| ==> hits[i] == hits[0 + i];
  }

  /**
   Whatever message comes in, in the chat loop: replies go only to a poll of the session's own user, each addressed to
   him and answering a row addressed to him; rows are added only for a list whose first record bears his name; a poll
   or a list under another name ends the session and does nothing; messages of other types do nothing.
   */
  lemma ChatIsTheUsers(c: Crypto, s: State, t: Tables, m: Message, results: Results, stale: Memory)
    requires s.Chatting?
    ensures var r := ChatStep(c, s, t, m, results, stale);
            && (r.replies != [] ==> m.Poll? && m.user == s.user && m.time >= 0)
            && (forall reply :: reply in r.replies ==>
                  && reply.PollResponse? && |reply.records| == 1 && reply.records[0].receiver == s.user
                  && exists k: nat :: IsTextOfRow(c, s.key, t, k, s.user, reply.records[0].message))
            && (r.tables != t ==> m.PollResponse? && m.records != [] && m.records[0].sender == s.user && r.state == s)
            && (m.Poll? && (m.user != s.user || m.time < 0) ==> r == Reaction(Closed, [], t))
            && (m.PollResponse? && m.records != [] && m.records[0].sender != s.user ==> r == Reaction(Closed, [], t))
            && (!m.Poll? && !m.PollResponse? ==> r == Reaction(s, [], t))
  {
    hide Replies, Reply, Joins, Assembled, Truncated, IsResult;
    if m.Poll? && m.user == s.user && m.time >= 0 {
      var hits := results(t, Truncated(m.time, 1000), s.user);
      ResultIsSelected(t, hits, Truncated(m.time, 1000), s.user);
      RepliesUnrefused(c, s.key, t, hits, s.user, m.time, stale);
      var replies := Replies(c, s.key, t, hits, 0, s.user, m.time, stale).0;
      forall reply | reply in replies
        ensures && reply.PollResponse? && |reply.records| == 1 && reply.records[0].receiver == s.user
                && exists k: nat :: IsTextOfRow(c, s.key, t, k, s.user, reply.records[0].message)
      {
        var i :| 0 <= i < |replies| && replies[i] == reply;
        ReplyIs(c, s.key, t, hits[i], s.user, m.time, stale(i));
        assert IsTextOfRow(c, s.key, t, hits[i], s.user, reply.records[0].message);
      }
    }
  }

  /** The ciphertext is the one of a row's text, under this key, and the row is addressed to the user. */
  predicate IsTextOfRow(c: Crypto, key: bytes, t: Tables, k: nat, user: bytes, message: bytes) {
    && k < |t.transactions| && Joins(t, t.transactions[k], user)
    && message == c.encrypt(key, t.messages[t.transactions[k].message.value])
  }

  lemma ReplyIs(c: Crypto, key: bytes, t: Tables, k: nat, user: bytes, time: int64, stale: int64)
    requires k < |t.transactions| && Joins(t, t.transactions[k], user)
    requires Reply(c, key, t, k, user, time, stale).Some?
    ensures t.transactions[k].message.value < |t.messages| && t.transactions[k].sender.value < |t.users|
    ensures var row, reply := t.transactions[k], Reply(c, key, t, k, user, time, stale).value;
            && reply.PollResponse? && |reply.records| == 1
            && reply.user == reply.records[0].sender == t.users[row.sender.value].email
            && reply.records[0].receiver == user
            && reply.records[0].message == c.encrypt(key, t.messages[row.message.value])
  {
    hide ValidUsername;
  }

  /** In each place of the dialogue, a message of another type than the one expected there ends it without a word. */
  lemma OtherTypesEndLogin(c: Crypto, users: seq<User>, s: State, m: Message, challenge: bytes, privateKey: bytes)
    requires InLogin(s) && if s.AwaitResponse? then !m.Response? else !m.Login?
    ensures LoginStep(c, users, s, m, challenge, privateKey) == (Closed, [])
  {
    hide Password, PemLayout, HashMatches;
  }

  /** The key of the session is what the private key unwraps, if that has sixteen bytes. */
  lemma KeyIsUnwrapped(c: Crypto, users: seq<User>, user: bytes, privateKey: bytes, m: Message, challenge: bytes,
                       other: bytes)
    requires m.Login?
    ensures var (next, out) := LoginStep(c, users, AwaitWrapped(user, privateKey), m, challenge, other);
            var key := c.unwrap(privateKey, if m.key.WrappedKey? then m.key.wrapped else []);
            if key.Some? && |key.value| == 16
            then next == Chatting(user, key.value) && out == [Ack(Success, Party.Server)]
            else next == Closed && out == []
  {
  }

  /** The challenge drawn for the session is the one sent and the one kept. */
  lemma ChallengeIsSent(c: Crypto, users: seq<User>, m: Message, challenge: bytes, privateKey: bytes)
    requires m.Login? && |challenge| == CHALLENGE_LENGTH
    ensures var (next, out) := LoginStep(c, users, AwaitLogin, m, challenge, privateKey);
            out == [Challenge(challenge)] && next.AwaitResponse? && next.challenge == challenge && next.user == m.user
  {
  }

  /**
   The hash of the answer is compared with the password of the row that has the user's address; without such a row, or
   with an empty password, the answer is the default error.
   */
  lemma ResponseIsJudged(c: Crypto, users: seq<User>, user: bytes, sent: bytes, m: Message, challenge: bytes,
                         privateKey: bytes)
    requires m.Response?
    ensures var (next, out) := LoginStep(c, users, AwaitResponse(user, sent), m, challenge, privateKey);
            && (forall i: nat :: OnlyRow(users, i, user) && users[i].password != [] ==>
                  if m.hash == Ascii(HexBytes(c.sha(sent + m.nonce + users[i].password)))
                  then next == AwaitKeyRequest(user) && out == [Ack(PasswordAuth, Party.Server)]
                  else next == Closed && out == [])
            && (forall i: nat :: OnlyRow(users, i, user) && users[i].password == [] ==>
                  next == Closed && out == [Ack(DefaultError, Party.Server)])
            && ((forall i :: 0 <= i < |users| ==> users[i].email != user) ==>
                  next == Closed && out == [Ack(DefaultError, Party.Server)])
  {
    hide Password, Ascii, HexBytes, OnlyRow;
    forall i: nat | OnlyRow(users, i, user)
      ensures i < |users| && Password(users, user) == users[i].password
    {
      RowExists(users, i, user);
      PasswordOfRow(users, i, user);
    }
  }

  lemma RowExists(users: seq<User>, i: nat, user: bytes)
    requires OnlyRow(users, i, user)
    ensures i < |users|
  {
  }

  /** The dialogue until it is over: the state reached, what was sent, what is still to be read. */
  function LoginRun(c: Crypto, users: seq<User>, s: State, inbox: seq<Message>, challenge: bytes, privateKey: bytes)
    : (State, seq<Message>, seq<Message>)
    decreases |inbox|
  {
    if !InLogin(s) then (s, [], inbox)
    else if inbox == [] then (Closed, [], [])
    else
      var (next, sent) := LoginStep(c, users, s, inbox[0], challenge, privateKey);
      var (last, later, rest) := LoginRun(c, users, next, inbox[1..], challenge, privateKey);
      (last, sent + later, rest)
  }

  /** The chat loop, until a message ends it, none is left, or `rounds` rounds have used up the time. */
  function ChatRun(c: Crypto, s: State, t: Tables, inbox: seq<Message>, rounds: nat,
                   results: nat -> Results, stale: nat -> Memory): Reaction
    decreases |inbox|
  {
    if !s.Chatting? then Reaction(s, [], t)
    else if rounds == 0 || inbox == [] then Reaction(Closed, [], t)
    else
      var now := ChatStep(c, s, t, inbox[0], results(rounds), stale(rounds));
      var later := ChatRun(c, now.state, now.tables, inbox[1..], rounds - 1, results, stale);
      Reaction(later.state, now.replies + later.replies, later.tables)
  }

  // ---------- The thread's own statements ----------

  /** The two directions of the socket as messages; decoding past the last one throws. */
  class Connection {
    var incoming: seq<Message>
    var outgoing: seq<Message>

    constructor (incoming: seq<Message>)
      ensures this.incoming == incoming && outgoing == []
    {
      this.incoming, outgoing := incoming, [];
    }

    method Decode() returns (r: Option<Message>)
      modifies this
      ensures outgoing == old(outgoing)
      ensures if old(incoming) == [] then r == None && incoming == []
              else r == Some(old(incoming)[0]) && incoming == old(incoming)[1..]
    {
      if incoming == [] {
        return None;
      }
      r := Some(incoming[0]);
      incoming := incoming[1..];
    }

    method Send(m: Message)
      modifies this
      ensures incoming == old(incoming) && outgoing == old(outgoing) + [m]
    {
      outgoing := outgoing + [m];
    }
  }

  /** One message of the dialogue has been read, if there was one, and answered. */
  ghost predicate TookTurn(c: Crypto, users: seq<User>, s: State, challenge: bytes, privateKey: bytes,
                           inbox: seq<Message>,
                           sent: seq<Message>, s': State, inbox': seq<Message>, sent': seq<Message>)
    requires InLogin(s)
  {
    if inbox == [] then s' == Closed && inbox' == [] && sent' == sent
    else
      var (next, out) := LoginStep(c, users, s, inbox[0], challenge, privateKey);
      s' == next && inbox' == inbox[1..] && sent' == sent + out
  }

  /** A turn leaves the outcome of the dialogue as it was. */
  lemma TurnKeepsOutcome(c: Crypto, users: seq<User>, s: State, challenge: bytes, privateKey: bytes,
                         inbox: seq<Message>, sent: seq<Message>, s': State, inbox': seq<Message>, sent': seq<Message>)
    requires InLogin(s) && TookTurn(c, users, s, challenge, privateKey, inbox, sent, s', inbox', sent')
    ensures var r := LoginRun(c, users, s, inbox, challenge, privateKey);
            var r' := LoginRun(c, users, s', inbox', challenge, privateKey);
            r'.0 == r.0 && r'.2 == r.2 && sent' + r'.1 == sent + r.1
  {
    hide LoginStep;
  }

  lemma OutcomeAfter(c: Crypto, users: seq<User>, s: State, challenge: bytes, privateKey: bytes, inbox: seq<Message>)
    requires !InLogin(s)
    ensures LoginRun(c, users, s, inbox, challenge, privateKey) == (s, [], inbox)
  {
  }

  method ReadLogin(sock: Connection, c: Crypto, users: seq<User>, challenge: bytes, ghost privateKey: bytes)
      returns (next: State)
    requires |challenge| == CHALLENGE_LENGTH
    modifies sock
    ensures TookTurn(c, users, AwaitLogin, challenge, privateKey, old(sock.incoming), old(sock.outgoing), next,
                     sock.incoming, sock.outgoing)
  {
    var msg := sock.Decode();
    if msg.None? || !msg.value.Login? {
      return Closed;
    }
    sock.Send(Challenge(challenge));
    return AwaitResponse(msg.value.user, challenge);
  }

  method ReadResponse(sock: Connection, c: Crypto, users: seq<User>, user: bytes, challenge: bytes, ghost fresh_: bytes,
                      ghost privateKey: bytes) returns (next: State)
    requires IsDigest(c.sha)
    modifies sock
    ensures TookTurn(c, users, AwaitResponse(user, challenge), fresh_, privateKey, old(sock.incoming),
                     old(sock.outgoing), next,
                     sock.incoming, sock.outgoing)
  {
    var msg2 := sock.Decode();
    if msg2.None? || !msg2.value.Response? {
      return Closed;
    }
    var password := Password(users, user);
    if password == [] {
      sock.Send(Ack(DefaultError, Party.Server));
      return Closed;
    }
    var matches := CheckHash(c, challenge, msg2.value.nonce, password, msg2.value.hash);
    if !matches {
      return Closed;
    }
    sock.Send(Ack(PasswordAuth, Party.Server));
    return AwaitKeyRequest(user);
  }

  method ReadKeyRequest(sock: Connection, c: Crypto, users: seq<User>, user: bytes, ghost challenge: bytes,
                        privateKey: bytes)
    returns (next: State)
    modifies sock
    ensures TookTurn(c, users, AwaitKeyRequest(user), challenge, privateKey, old(sock.incoming), old(sock.outgoing),
                     next, sock.incoming, sock.outgoing)
  {
    var msg := sock.Decode();
    if msg.None? || !msg.value.Login? || !PemLayout(c.publicPem(privateKey)) {
      return Closed;
    }
    sock.Send(Login([], PublicKey(c.publicPem(privateKey))));
    return AwaitWrapped(user, privateKey);
  }

  method ReadWrapped(sock: Connection, c: Crypto, users: seq<User>, user: bytes, ghost challenge: bytes,
                     privateKey: bytes, ghost fresh_: bytes) returns (next: State)
    modifies sock
    ensures TookTurn(c, users, AwaitWrapped(user, privateKey), challenge, fresh_, old(sock.incoming),
                     old(sock.outgoing), next,
                     sock.incoming, sock.outgoing)
  {
    var msgNewLogin := sock.Decode();
    if msgNewLogin.None? || !msgNewLogin.value.Login? {
      return Closed;
    }
    var decryptedSymKey := c.unwrap(privateKey, EncSymKey(msgNewLogin.value.key));
    if decryptedSymKey.None? || |decryptedSymKey.value| != KEYSIZE {
      return Closed;
    }
    sock.Send(Ack(Success, Party.Server));
    return Chatting(user, decryptedSymKey.value);
  }

  /** The nested conditions in front of the chat loop; `None` where the thread gives up. */
  method LogIn(sock: Connection, c: Crypto, users: seq<User>, challenge: bytes, privateKey: bytes)
    returns (originalUser: bytes, keyString: Option<bytes>)
    requires |challenge| == CHALLENGE_LENGTH && IsDigest(c.sha)
    modifies sock
    ensures var (last, sent, rest) := LoginRun(c, users, AwaitLogin, old(sock.incoming), challenge, privateKey);
            && sock.outgoing == old(sock.outgoing) + sent
            && last == (if keyString.None? then Closed else Chatting(originalUser, keyString.value))
            && (keyString.Some? ==> sock.incoming == rest)
  {
    hide LoginRun, LoginStep, TookTurn;
    originalUser, keyString := [], None;
    ghost var inbox, sent := sock.incoming, sock.outgoing;
    var s := ReadLogin(sock, c, users, challenge, privateKey);
    TurnKeepsOutcome(c, users, AwaitLogin, challenge, privateKey, inbox, sent, s, sock.incoming, sock.outgoing);
    KindAfter(c, users, AwaitLogin, challenge, privateKey, inbox, sent, s, sock.incoming, sock.outgoing);
    if s.AwaitResponse? {
      ghost var s1, in1, out1 := s, sock.incoming, sock.outgoing;
      s := ReadResponse(sock, c, users, s.user, s.challenge, challenge, privateKey);
      TurnKeepsOutcome(c, users, s1, challenge, privateKey, in1, out1, s, sock.incoming, sock.outgoing);
      KindAfter(c, users, s1, challenge, privateKey, in1, out1, s, sock.incoming, sock.outgoing);
    }
    if s.AwaitKeyRequest? {
      ghost var s2, in2, out2 := s, sock.incoming, sock.outgoing;
      s := ReadKeyRequest(sock, c, users, s.user, challenge, privateKey);
      TurnKeepsOutcome(c, users, s2, challenge, privateKey, in2, out2, s, sock.incoming, sock.outgoing);
      KindAfter(c, users, s2, challenge, privateKey, in2, out2, s, sock.incoming, sock.outgoing);
    }
    if s.AwaitWrapped? {
      ghost var s3, in3, out3 := s, sock.incoming, sock.outgoing;
      s := ReadWrapped(sock, c, users, s.user, challenge, s.privateKey, privateKey);
      TurnKeepsOutcome(c, users, s3, challenge, privateKey, in3, out3, s, sock.incoming, sock.outgoing);
      KindAfter(c, users, s3, challenge, privateKey, in3, out3, s, sock.incoming, sock.outgoing);
    }
    OutcomeAfter(c, users, s, challenge, privateKey, sock.incoming);
    if s.Chatting? {
      originalUser, keyString := s.user, Some(s.key);
    }
  }

  /** A turn leads to the next question or ends the dialogue. */
  lemma KindAfter(c: Crypto, users: seq<User>, s: State, challenge: bytes, privateKey: bytes, inbox: seq<Message>,
                  sent: seq<Message>, s': State, inbox': seq<Message>, sent': seq<Message>)
    requires InLogin(s) && TookTurn(c, users, s, challenge, privateKey, inbox, sent, s', inbox', sent')
    ensures s'.Closed?
         || (s.AwaitLogin? && s'.AwaitResponse?) || (s.AwaitResponse? && s'.AwaitKeyRequest?)
         || (s.AwaitKeyRequest? && s'.AwaitWrapped?) || (s.AwaitWrapped? && s'.Chatting?)
  {
    hide Password, HashMatches, PemLayout;
  }

  /** Hashes the concatenation, prints the digest and compares the text with the one received. */
  method CheckHash(c: Crypto, challenge: bytes, nonce: bytes, password: bytes, hash: bytes) returns (matches: bool)
    requires IsDigest(c.sha)
    ensures matches == (hash == Ascii(ServerHash(c.sha, challenge, nonce, password)))
  {
    var concatenateMe := Concatenate(challenge, nonce, password);
    var buffer := new char[2 * DIGEST + 1];
    PrintDigest(c.sha(concatenateMe[..]), buffer);
    var text := buffer[..2 * DIGEST];
    assert text == ServerHash(c.sha, challenge, nonce, password);
    return hash == Ascii(text);
  }

  /** The reply loop of a poll: false where a setter throws, after the replies before it are out. */
  method SendReplies(sock: Connection, c: Crypto, key: bytes, t: Tables, hits: seq<nat>, user: bytes, time: int64,
                     stale: Memory)
    returns (open: bool)
    requires Selected(t, hits, user)
    modifies sock
    ensures sock.incoming == old(sock.incoming)
    ensures var r := Replies(c, key, t, hits, 0, user, time, stale);
            open == r.1 && sock.outgoing == old(sock.outgoing) + r.0
  {
    hide Reply, Joins;
    ghost var all := Replies(c, key, t, hits, 0, user, time, stale);
    for i := 0 to |hits|
      invariant sock.incoming == old(sock.incoming)
      invariant var rest := Replies(c, key, t, hits, i, user, time, stale);
                all.1 == rest.1 && old(sock.outgoing) + all.0 == sock.outgoing + rest.0
    {
      var reply := Reply(c, key, t, hits[i], user, time, stale(i));
      if reply.None? {
        return false;
      }
      sock.Send(reply.value);
    }
    return true;
  }

  method Assemble(c: Crypto, key: bytes, records: seq<Record>) returns (text: bytes)
    ensures text == Assembled(c, key, records)
  {
    text := [];
    for i := 0 to |records|
      invariant text + Assembled(c, key, records[i..]) == Assembled(c, key, records)
    {
      assert records[i..][1..] == records[i + 1..];
      var decrypted := c.decrypt(key, records[i].message);
      text := text + decrypted;
    }
  }

  /** The five statements that store one text. */
  method Store(db: Database, sender: bytes, receiver: bytes, text: bytes, time: int64)
    modifies db
    ensures var t1 := old(db.tables).(messages := old(db.tables).messages + [text]);
            db.tables == t1.(transactions := t1.transactions + [StoredRow(t1, sender, receiver, text, time)])
  {
    db.InsertMessage(text);
    var senderId := UserId(db.tables.users, sender);
    var receiverId := UserId(db.tables.users, receiver);
    var messageId := MessageId(db.tables.messages, text);
    db.InsertTransaction(Row(senderId, receiverId, messageId, Truncated(time, 1000)));
  }

  /** The thread: everything it sends and everything it leaves in the database. */
  method ClientConnectStart(sock: Connection, db: Database, c: Crypto, challenge: bytes, privateKey: bytes, rounds: nat,
                            results: nat -> Results, stale: nat -> Memory)
    requires |challenge| == CHALLENGE_LENGTH && IsDigest(c.sha)
    modifies sock, db
    ensures var (last, sent, rest) := LoginRun(c, old(db.tables.users), AwaitLogin, old(sock.incoming), challenge,
                                               privateKey);
            var chat := ChatRun(c, last, old(db.tables), rest, rounds, results, stale);
            && sock.outgoing == old(sock.outgoing) + sent + chat.replies
            && db.tables == chat.tables
  {
    hide ChatStep, LoginRun, IsResult;
    var originalUser, keyString := LogIn(sock, c, db.tables.users, challenge, privateKey);
    if keyString.None? {
      return;
    }
    ghost var s, before := Chatting(originalUser, keyString.value), sock.outgoing;
    ghost var all := ChatRun(c, s, db.tables, sock.incoming, rounds, results, stale);
    var left := rounds;
    while left > 0
      invariant var later := ChatRun(c, s, db.tables, sock.incoming, left, results, stale);
                all.tables == later.tables && before + all.replies == sock.outgoing + later.replies
    {
      var msgs := sock.Decode();
      if msgs.None? {
        return;
      }
      var open := HandleChat(sock, db, c, originalUser, keyString.value, msgs.value, results(left), stale(left));
      left := left - 1;
      if !open {
        return;
      }
    }
  }

  /** One round of the chat loop. */
  method HandleChat(sock: Connection, db: Database, c: Crypto, originalUser: bytes, keyString: bytes, msgs: Message,
                    results: Results, stale: Memory)
    returns (open: bool)
    modifies sock, db
    ensures sock.incoming == old(sock.incoming)
    ensures var r := ChatStep(c, Chatting(originalUser, keyString), old(db.tables), msgs, results, stale);
            && db.tables == r.tables
            && sock.outgoing == old(sock.outgoing) + r.replies
            && (if open then r.state == Chatting(originalUser, keyString) else !r.state.Chatting?)
  {
    if msgs.Poll? {
      if msgs.user != originalUser || msgs.time < 0 {
        return false;
      }
      var hits := results(db.tables, Truncated(msgs.time, 1000), msgs.user);
      ResultIsSelected(db.tables, hits, Truncated(msgs.time, 1000), msgs.user);
      open := SendReplies(sock, c, keyString, db.tables, hits, msgs.user, msgs.time, stale);
    } else if msgs.PollResponse? {
      if msgs.records == [] {
        return false;
      }
      var receivedDecryptedMessage := Assemble(c, keyString, msgs.records);
      if msgs.records[0].sender != originalUser {
        return false;
      }
      Store(db, msgs.records[0].sender, msgs.records[0].receiver, receivedDecryptedMessage, msgs.records[0].time);
      return true;
    } else {
      return true;
    }
  }
}
