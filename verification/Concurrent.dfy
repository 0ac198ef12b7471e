/**
 Any number of server threads over one database. A step is one message handled or one SQL statement, and
 steps of different threads interleave in any order; the clients may send anything.
 */
module Concurrent {
  import opened Wrappers
  import opened Bytes
  import opened Messages
  import opened Hashing
  import opened Database
  import opened Server

  /** What is to be stored; `list` is the history of it, the records that came in. */
  datatype Order = Order(receiver: bytes, text: bytes, time: int64, list: seq<Record>)

  /** How far a thread is with the five statements that store a text. */
  datatype Job =
    | Idle
    | InsertText(order: Order)
    | FindSender(order: Order)
    | FindReceiver(order: Order, sender: Option<nat>)
    | FindText(order: Order, sender: Option<nat>, receiverId: Option<nat>)
    | InsertRow(order: Order, row: Row)

  datatype Thread = Thread(state: State, job: Job)

  // History, which no statement reads: the checks a thread has passed, what it stored, what it returned.
  datatype HashCheck = HashCheck(user: bytes, challenge: bytes, nonce: bytes, hash: bytes)
  datatype KeyCheck = KeyCheck(privateKey: bytes, wrapped: bytes, key: bytes)
  datatype Stored = Stored(sid: nat, order: Order, row: Row)
  datatype Returned = Returned(sid: nat, user: bytes, row: nat, reply: Message)

  datatype World = World(
    tables: Tables,
    threads: map<nat, Thread>,
    hashes: map<nat, HashCheck>,
    keys: map<nat, KeyCheck>,
    stored: seq<Stored>,
    returned: seq<Returned>)

  datatype Step =
    | Connect(sid: nat)
    | Receive(sid: nat, m: Message, challenge: bytes, privateKey: bytes, results: Results, stale: Memory)
    | Statement(sid: nat, pick: nat)  // `pick`: the row a lookup by text ends on
    | SqlFails(sid: nat)
    | Expire(sid: nat)                // the time is up, or decoding throws

  function Start(t: Tables): World {
    World(t, map[], map[], map[], [], [])
  }

  function Put(w: World, sid: nat, thread: Thread): World {
    w.(threads := w.threads[sid := thread])
  }

  function LoginMessage(c: Crypto, w: World, sid: nat, m: Message, challenge: bytes, privateKey: bytes): World
    requires sid in w.threads && InLogin(w.threads[sid].state)
  {
    var s := w.threads[sid].state;
    var (next, _) := LoginStep(c, w.tables.users, s, m, challenge, privateKey);
    var w1 := Put(w, sid, Thread(next, Idle));
    if next.AwaitKeyRequest? && s.AwaitResponse? && m.Response? then
      w1.(hashes := w.hashes[sid := HashCheck(s.user, s.challenge, m.nonce, m.hash)])
    else if next.Chatting? && s.AwaitWrapped? && m.Login? then
      w1.(keys := w.keys[sid := KeyCheck(s.privateKey, EncSymKey(m.key), next.key)])
    else w1
  }

  /** The replies sent, paired with the rows they answer with. */
  function Log(sid: nat, user: bytes, hits: seq<nat>, replies: seq<Message>): (log: seq<Returned>)
    requires |replies| <= |hits|
    ensures |log| == |replies|
  {
    seq(|replies|, i requires 0 <= i < |replies| => Returned(sid, user, hits[i], replies[i]))
  }

  function ChatMessage(c: Crypto, w: World, sid: nat, m: Message, results: Results, stale: Memory): World
    requires sid in w.threads && w.threads[sid].state.Chatting?
  {
    var s := w.threads[sid].state;
    var t := w.tables;
    match m
    case Poll(user, time) =>
      var next := ChatStep(c, s, t, m, results, stale);
      if user != s.user || time < 0 then Put(w, sid, Thread(next.state, Idle))
      else
        var hits := results(t, Truncated(time, 1000), user);
        ResultIsSelected(t, hits, Truncated(time, 1000), user);
        RepliesAre(c, s.key, t, hits, 0, user, time, stale);
        Put(w, sid, Thread(next.state, Idle)).(returned := w.returned + Log(sid, s.user, hits, next.replies))
    case PollResponse(_, _, _, records) =>
      if records == [] then Put(w, sid, Thread(Lost, Idle))
      else if records[0].sender != s.user then Put(w, sid, Thread(Closed, Idle))
      else
        Put(w, sid, Thread(s, InsertText(Order(records[0].receiver, Assembled(c, s.key, records), records[0].time,
                                               records))))
    case _ => w
  }

  /** One SQL statement of the thread's job. */
  function RunStatement(w: World, sid: nat, pick: nat): Option<World>
    requires sid in w.threads && w.threads[sid].state.Chatting?
  {
    var Thread(s, job) := w.threads[sid];
    var t := w.tables;
    match job
    case Idle => None
    case InsertText(order) =>
      Some(Put(w, sid, Thread(s, FindSender(order))).(tables := t.(messages := t.messages + [order.text])))
    case FindSender(order) =>
      Some(Put(w, sid, Thread(s, FindReceiver(order, UserId(t.users, s.user)))))
    case FindReceiver(order, sender) =>
      Some(Put(w, sid, Thread(s, FindText(order, sender, UserId(t.users, order.receiver)))))
    case FindText(order, sender, receiverId) =>
      // any row with an equal text may come last in the result, also one of another thread
      var seconds := Truncated(order.time, 1000);
      if pick < |t.messages| && t.messages[pick] == order.text then
        Some(Put(w, sid, Thread(s, InsertRow(order, Row(sender, receiverId, Some(pick), seconds)))))
      else if order.text in t.messages then None
      else Some(Put(w, sid, Thread(s, InsertRow(order, Row(sender, receiverId, None, seconds)))))
    case InsertRow(order, row) =>
      Some(Put(w, sid, Thread(s, Idle)).(
           tables := t.(transactions := t.transactions + [row]),
           stored := w.stored + [Stored(sid, order, row)]))
  }

  /** `None`: the step is not possible in this state. */
  function Apply(c: Crypto, w: World, step: Step): Option<World> {
    if step.Connect? then
      if step.sid in w.threads then None else Some(Put(w, step.sid, Thread(AwaitLogin, Idle)))
    else if step.sid !in w.threads then None
    else
      var Thread(s, job) := w.threads[step.sid];
      match step
      case Receive(sid, m, challenge, privateKey, results, stale) =>
        if !job.Idle? then None
        else if InLogin(s) then Some(LoginMessage(c, w, sid, m, challenge, privateKey))
        else if s.Chatting? then Some(ChatMessage(c, w, sid, m, results, stale))
        else None
      case Statement(sid, pick) => if s.Chatting? then RunStatement(w, sid, pick) else None
      case SqlFails(sid) => if job.Idle? then None else Some(Put(w, sid, Thread(s, Idle)))
      case Expire(sid) =>
        if (InLogin(s) || s.Chatting?) && job.Idle? then Some(Put(w, sid, Thread(Closed, Idle))) else None
  }

  function Run(c: Crypto, w: World, steps: seq<Step>): Option<World>
    decreases |steps|
  {
    if steps == [] then Some(w)
    else
      var next := Apply(c, w, steps[0]);
      if next.None? then None else Run(c, next.value, steps[1..])
  }

  // ---------- What every reachable state satisfies ----------

  /** The thread's user has shown the password stored for that name. */
  predicate HashChecked(c: Crypto, w: World, sid: nat, user: bytes) {
    && sid in w.hashes
    && var h := w.hashes[sid];
       && h.user == user
       && Password(w.tables.users, user) != []
       && HashMatches(c, w.tables.users, user, h.challenge, h.nonce, h.hash)
  }

  predicate KeyExchanged(c: Crypto, w: World, sid: nat, key: bytes) {
    && sid in w.keys
    && w.keys[sid].key == key && |key| == KEYSIZE
    && c.unwrap(w.keys[sid].privateKey, w.keys[sid].wrapped) == Some(key)
  }

  /** The thread has passed both checks as this user. */
  predicate LoggedIn(c: Crypto, w: World, sid: nat, user: bytes) {
    HashChecked(c, w, sid, user) && sid in w.keys && KeyExchanged(c, w, sid, w.keys[sid].key)
  }

  predicate ThreadInv(c: Crypto, w: World, sid: nat)
    requires sid in w.threads
  {
    var Thread(s, job) := w.threads[sid];
    && (s.AwaitLogin? || s.AwaitResponse? ==> sid !in w.hashes)
    && (InLogin(s) ==> sid !in w.keys)
    && (s.AwaitKeyRequest? || s.AwaitWrapped? || s.Chatting? ==> HashChecked(c, w, sid, s.user))
    && (s.Chatting? ==> KeyExchanged(c, w, sid, s.key))
    && (!job.Idle? ==> s.Chatting?)
    && (!job.Idle? ==> Assembles(c, s.user, w.keys[sid].key, job.order))
    && (job.FindSender? || job.FindReceiver? || job.FindText? ==> job.order.text in w.tables.messages)
    && (job.FindReceiver? || job.FindText? ==> job.sender == UserId(w.tables.users, s.user))
    && (job.FindText? ==> job.receiverId == UserId(w.tables.users, job.order.receiver))
    && (job.InsertRow? ==> RowFits(w.tables, job.row, s.user, job.order))
  }

  /** The row names the two users, and the message row it names holds exactly the text. */
  predicate RowFits(t: Tables, row: Row, sender: bytes, order: Order) {
    && row.sender == UserId(t.users, sender)
    && row.receiver == UserId(t.users, order.receiver)
    && row.message.Some? && row.message.value < |t.messages| && t.messages[row.message.value] == order.text
    && row.seconds == Truncated(order.time, 1000)
  }

  /** The order comes from one list whose first record bears the user's name. */
  predicate Assembles(c: Crypto, user: bytes, key: bytes, order: Order) {
    && order.list != []
    && order.list[0].sender == user
    && order.receiver == order.list[0].receiver && order.time == order.list[0].time
    && order.text == Assembled(c, key, order.list)
  }

  predicate StoredInv(c: Crypto, w: World, e: Stored) {
    && e.sid in w.hashes && LoggedIn(c, w, e.sid, w.hashes[e.sid].user)
    && Assembles(c, w.hashes[e.sid].user, w.keys[e.sid].key, e.order)
    && RowFits(w.tables, e.row, w.hashes[e.sid].user, e.order)
  }

  predicate ReturnedInv(c: Crypto, w: World, r: Returned) {
    && LoggedIn(c, w, r.sid, r.user)
    && r.row < |w.tables.transactions| && Joins(w.tables, w.tables.transactions[r.row], r.user)
    && var row := w.tables.transactions[r.row];
       && r.reply.PollResponse? && |r.reply.records| == 1
       && r.reply.user == r.reply.records[0].sender == w.tables.users[row.sender.value].email
       && r.reply.records[0].receiver == r.user
       && r.reply.records[0].message == c.encrypt(w.keys[r.sid].key, w.tables.messages[row.message.value])
  }

  function Rows(stored: seq<Stored>): (rows: seq<Row>)
    ensures |rows| == |stored|
  {
    seq(|stored|, i requires 0 <= i < |stored| => stored[i].row)
  }

  predicate Inv(c: Crypto, t0: Tables, w: World) {
    && w.tables.users == t0.users
    && t0.messages <= w.tables.messages
    && w.tables.transactions == t0.transactions + Rows(w.stored)
    && (forall sid :: sid in w.threads ==> ThreadInv(c, w, sid))
    && (forall i :: 0 <= i < |w.stored| ==> StoredInv(c, w, w.stored[i]))
    && (forall i :: 0 <= i < |w.returned| ==> ReturnedInv(c, w, w.returned[i]))
    && w.hashes.Keys <= w.threads.Keys && w.keys.Keys <= w.threads.Keys
  }

  /** A step of thread `sid` takes nothing back that a check or a row rests on. */
  predicate Grows(w: World, w': World, sid: nat) {
    && w'.tables.users == w.tables.users
    && w.tables.messages <= w'.tables.messages
    && w.tables.transactions <= w'.tables.transactions
    && (forall i :: i in w.hashes ==> i in w'.hashes && w'.hashes[i] == w.hashes[i])
    && (forall i :: i in w.keys ==> i in w'.keys && w'.keys[i] == w.keys[i])
    && w'.hashes.Keys <= w.hashes.Keys + {sid} && w'.keys.Keys <= w.keys.Keys + {sid}
  }

  lemma ThreadUntouched(c: Crypto, w: World, w': World, sid: nat, other: nat)
    requires other in w.threads && ThreadInv(c, w, other) && Grows(w, w', sid) && other != sid
    requires other in w'.threads && w'.threads[other] == w.threads[other]
    ensures ThreadInv(c, w', other)
  {
    hide HashMatches, Password, UserId;
    if w.threads[other].job.FindSender? || w.threads[other].job.FindReceiver? || w.threads[other].job.FindText? {
      var i :| 0 <= i < |w.tables.messages| && w.tables.messages[i] == w.threads[other].job.order.text;
      assert w'.tables.messages[i] == w.threads[other].job.order.text;
    }
  }

  lemma StoredUntouched(c: Crypto, w: World, w': World, sid: nat, e: Stored)
    requires StoredInv(c, w, e) && Grows(w, w', sid)
    ensures StoredInv(c, w', e)
  {
    hide HashMatches, Password, UserId;
  }

  lemma ReturnedUntouched(c: Crypto, w: World, w': World, sid: nat, r: Returned)
    requires ReturnedInv(c, w, r) && Grows(w, w', sid)
    ensures ReturnedInv(c, w', r)
  {
    hide HashMatches, Password, UserId;
  }

  /** The invariant survives a step if it holds of what the step's own thread did. */
  lemma InvFromThread(c: Crypto, t0: Tables, w: World, w': World, sid: nat)
    requires Inv(c, t0, w) && Grows(w, w', sid)
    requires sid in w'.threads && w'.threads == w.threads[sid := w'.threads[sid]] && ThreadInv(c, w', sid)
    requires w.stored <= w'.stored && w.returned <= w'.returned
    requires w'.tables.transactions == t0.transactions + Rows(w'.stored)
    requires forall i :: |w.stored| <= i < |w'.stored| ==> StoredInv(c, w', w'.stored[i])
    requires forall i :: |w.returned| <= i < |w'.returned| ==> ReturnedInv(c, w', w'.returned[i])
    ensures Inv(c, t0, w')
  {
    hide ThreadInv, StoredInv, ReturnedInv;
    forall other | other in w'.threads && other != sid
      ensures ThreadInv(c, w', other)
    {
      ThreadUntouched(c, w, w', sid, other);
    }
    forall i | 0 <= i < |w.stored|
      ensures StoredInv(c, w', w'.stored[i])
    {
      StoredUntouched(c, w, w', sid, w.stored[i]);
    }
    forall i | 0 <= i < |w.returned|
      ensures ReturnedInv(c, w', w'.returned[i])
    {
      ReturnedUntouched(c, w, w', sid, w.returned[i]);
    }
  }

  lemma LoginKeepsThread(c: Crypto, w: World, sid: nat, m: Message, challenge: bytes, privateKey: bytes)
    requires sid in w.threads && ThreadInv(c, w, sid) && InLogin(w.threads[sid].state)
    ensures ThreadInv(c, LoginMessage(c, w, sid, m, challenge, privateKey), sid)
  {
    hide HashMatches, Password, UserId, PemLayout, Assembles, RowFits;
  }

  lemma LoginKeepsInv(c: Crypto, t0: Tables, w: World, sid: nat, m: Message, challenge: bytes, privateKey: bytes)
    requires Inv(c, t0, w) && sid in w.threads && InLogin(w.threads[sid].state)
    ensures Inv(c, t0, LoginMessage(c, w, sid, m, challenge, privateKey))
  {
    hide StoredInv, ReturnedInv, LoginStep, HashChecked, KeyExchanged, Assembles, RowFits;
    var w' := LoginMessage(c, w, sid, m, challenge, privateKey);
    assert ThreadInv(c, w, sid);
    LoginKeepsThread(c, w, sid, m, challenge, privateKey);
    InvFromThread(c, t0, w, w', sid);
  }

  lemma LogIsSound(c: Crypto, w: World, w': World, sid: nat, m: Message, results: Results, stale: Memory, i: nat)
    requires sid in w.threads && ThreadInv(c, w, sid) && w.threads[sid].state.Chatting?
    requires m.Poll? && m.user == w.threads[sid].state.user && m.time >= 0
    requires w' == ChatMessage(c, w, sid, m, results, stale) && |w.returned| <= i < |w'.returned|
    ensures ReturnedInv(c, w', w'.returned[i])
  {
    hide HashMatches, Password, UserId, Reply, Replies, IsResult, Joins, Truncated, Assembles, RowFits;
    var s, t := w.threads[sid].state, w.tables;
    var hits := results(t, Truncated(m.time, 1000), m.user);
    ResultIsSelected(t, hits, Truncated(m.time, 1000), m.user);
    RepliesAre(c, s.key, t, hits, 0, m.user, m.time, stale);
    var k := i - |w.returned|;
    assert w'.returned[i] == Returned(sid, s.user, hits[k], Replies(c, s.key, t, hits, 0, m.user, m.time, stale).0[k]);
    assert hits[k] in hits;
    ReplyIs(c, s.key, t, hits[k], s.user, m.time, stale(k));
  }

  lemma ChatKeepsThread(c: Crypto, w: World, sid: nat, m: Message, results: Results, stale: Memory)
    requires sid in w.threads && ThreadInv(c, w, sid) && w.threads[sid].state.Chatting? && w.threads[sid].job.Idle?
    ensures ThreadInv(c, ChatMessage(c, w, sid, m, results, stale), sid)
  {
    hide HashMatches, Password, UserId, Assembled, Replies, IsResult, Truncated, RowFits;
  }

  lemma ChatKeepsInv(c: Crypto, t0: Tables, w: World, sid: nat, m: Message, results: Results, stale: Memory)
    requires Inv(c, t0, w) && sid in w.threads && w.threads[sid].state.Chatting? && w.threads[sid].job.Idle?
    ensures Inv(c, t0, ChatMessage(c, w, sid, m, results, stale))
  {
    hide HashChecked, KeyExchanged, Assembles, RowFits, Assembled, StoredInv, ReturnedInv, Replies, IsResult, Truncated;
    var w' := ChatMessage(c, w, sid, m, results, stale);
    assert ThreadInv(c, w, sid);
    ChatKeepsThread(c, w, sid, m, results, stale);
    forall i | |w.returned| <= i < |w'.returned|
      ensures ReturnedInv(c, w', w'.returned[i])
    {
      LogIsSound(c, w, w', sid, m, results, stale, i);
    }
    InvFromThread(c, t0, w, w', sid);
  }

  /** The checks a thread has passed stand as long as the users and the record of the checks do. */
  lemma ChecksStand(c: Crypto, w: World, w': World, sid: nat, user: bytes, key: bytes)
    requires w'.tables.users == w.tables.users && w'.hashes == w.hashes && w'.keys == w.keys
    ensures HashChecked(c, w', sid, user) == HashChecked(c, w, sid, user)
    ensures KeyExchanged(c, w', sid, key) == KeyExchanged(c, w, sid, key)
  {
    hide HashMatches, Password;
  }

  lemma InsertTextKeepsInv(c: Crypto, t0: Tables, w: World, sid: nat, pick: nat)
    requires Inv(c, t0, w) && sid in w.threads && w.threads[sid].state.Chatting? && w.threads[sid].job.InsertText?
    ensures Inv(c, t0, RunStatement(w, sid, pick).value)
  {
    hide HashChecked, KeyExchanged, Assembles, UserId, StoredInv, ReturnedInv;
    var w' := RunStatement(w, sid, pick).value;
    var s := w.threads[sid].state;
    assert ThreadInv(c, w, sid);
    assert w'.tables.messages[|w.tables.messages|] == w.threads[sid].job.order.text;
    ChecksStand(c, w, w', sid, s.user, s.key);
    InvFromThread(c, t0, w, w', sid);
  }

  lemma LookupKeepsInv(c: Crypto, t0: Tables, w: World, sid: nat, pick: nat)
    requires Inv(c, t0, w) && sid in w.threads && w.threads[sid].state.Chatting?
    requires !w.threads[sid].job.InsertText? && !w.threads[sid].job.InsertRow?
    requires RunStatement(w, sid, pick).Some?
    ensures Inv(c, t0, RunStatement(w, sid, pick).value)
  {
    hide HashChecked, KeyExchanged, Assembles, UserId, StoredInv, ReturnedInv;
    var w' := RunStatement(w, sid, pick).value;
    var s := w.threads[sid].state;
    assert ThreadInv(c, w, sid);
    ChecksStand(c, w, w', sid, s.user, s.key);
    InvFromThread(c, t0, w, w', sid);
  }

  lemma InsertRowKeepsInv(c: Crypto, t0: Tables, w: World, sid: nat, pick: nat)
    requires Inv(c, t0, w) && sid in w.threads && w.threads[sid].state.Chatting? && w.threads[sid].job.InsertRow?
    ensures Inv(c, t0, RunStatement(w, sid, pick).value)
  {
    hide KeyExchanged, Assembles, UserId, HashMatches, Password, ReturnedInv;
    var w' := RunStatement(w, sid, pick).value;
    var s, job := w.threads[sid].state, w.threads[sid].job;
    assert ThreadInv(c, w, sid);
    assert Rows(w'.stored) == Rows(w.stored) + [job.row];
    ChecksStand(c, w, w', sid, s.user, s.key);
    assert KeyExchanged(c, w', sid, w'.keys[sid].key) by {
      KeyIs(c, w, sid, s.key);
    }
    assert StoredInv(c, w', Stored(sid, job.order, job.row));
    InvFromThread(c, t0, w, w', sid);
  }

  lemma KeyIs(c: Crypto, w: World, sid: nat, key: bytes)
    requires KeyExchanged(c, w, sid, key)
    ensures sid in w.keys && w.keys[sid].key == key
  {
  }

  lemma StatementKeepsInv(c: Crypto, t0: Tables, w: World, sid: nat, pick: nat)
    requires Inv(c, t0, w) && sid in w.threads && w.threads[sid].state.Chatting?
    requires RunStatement(w, sid, pick).Some?
    ensures Inv(c, t0, RunStatement(w, sid, pick).value)
  {
    hide RunStatement, Inv;
    var job := w.threads[sid].job;
    if job.InsertText? {
      InsertTextKeepsInv(c, t0, w, sid, pick);
    } else if job.InsertRow? {
      InsertRowKeepsInv(c, t0, w, sid, pick);
    } else {
      LookupKeepsInv(c, t0, w, sid, pick);
    }
  }

  lemma OtherKeepsInv(c: Crypto, t0: Tables, w: World, step: Step)
    requires Inv(c, t0, w) && Apply(c, w, step).Some? && (step.Connect? || step.SqlFails? || step.Expire?)
    ensures Inv(c, t0, Apply(c, w, step).value)
  {
    hide HashChecked, KeyExchanged, Assembles, RowFits, UserId, StoredInv, ReturnedInv;
    var sid, w' := step.sid, Apply(c, w, step).value;
    if !step.Connect? {
      assert ThreadInv(c, w, sid);
      var s := w.threads[sid].state;
      if s.Chatting? {
        ChecksStand(c, w, w', sid, s.user, s.key);
      }
    }
    InvFromThread(c, t0, w, w', sid);
  }

  lemma StepKeepsInv(c: Crypto, t0: Tables, w: World, step: Step)
    requires Inv(c, t0, w) && Apply(c, w, step).Some?
    ensures Inv(c, t0, Apply(c, w, step).value)
  {
    hide Inv, LoginMessage, ChatMessage, RunStatement;
    match step
    case Receive(sid, m, challenge, privateKey, results, stale) =>
      if InLogin(w.threads[sid].state) {
        LoginKeepsInv(c, t0, w, sid, m, challenge, privateKey);
      } else {
        ChatKeepsInv(c, t0, w, sid, m, results, stale);
      }
    case Statement(sid, pick) => StatementKeepsInv(c, t0, w, sid, pick);
    case Connect(_) => OtherKeepsInv(c, t0, w, step);
    case SqlFails(_) => OtherKeepsInv(c, t0, w, step);
    case Expire(_) => OtherKeepsInv(c, t0, w, step);
  }

  lemma {:induction false} RunKeepsInv(c: Crypto, t0: Tables, w: World, steps: seq<Step>)
    requires Inv(c, t0, w) && Run(c, w, steps).Some?
    ensures Inv(c, t0, Run(c, w, steps).value)
    decreases |steps|
  {
    hide Inv, Apply;
    if steps != [] {
      StepKeepsInv(c, t0, w, steps[0]);
      RunKeepsInv(c, t0, Apply(c, w, steps[0]).value, steps[1..]);
    }
  }

  /** The thread's client has sent the hash of the thread's challenge, its nonce and the password of the user's row. */
  predicate ShownPassword(c: Crypto, users: seq<User>, h: HashCheck) {
    exists i :: 0 <= i < |users| && users[i].email == h.user && users[i].password != []
      && h.hash == Ascii(HexBytes(c.sha(h.challenge + h.nonce + users[i].password)))
  }

  lemma CheckedMeansShown(c: Crypto, w: World, sid: nat, user: bytes)
    requires HashChecked(c, w, sid, user)
    ensures sid in w.hashes && w.hashes[sid].user == user && ShownPassword(c, w.tables.users, w.hashes[sid])
  {
    hide Ascii, HexBytes, Password;
  }

  /**
   Whatever the clients send and however the statements interleave: every row a thread has added names a
   message row with exactly the text the thread assembled, and as sender the user it logged in; and it
   added it only after the hash and the key exchange had succeeded.
   */
  lemma StoreIsSound(c: Crypto, t0: Tables, steps: seq<Step>, i: nat)
    requires Run(c, Start(t0), steps).Some?
    requires i < |Run(c, Start(t0), steps).value.stored|
    ensures var w := Run(c, Start(t0), steps).value;
            var e := w.stored[i];
            && w.tables.transactions == t0.transactions + Rows(w.stored)
            && e.sid in w.hashes && LoggedIn(c, w, e.sid, w.hashes[e.sid].user)
            && Assembles(c, w.hashes[e.sid].user, w.keys[e.sid].key, e.order)
            && RowFits(w.tables, e.row, w.hashes[e.sid].user, e.order)
            && ShownPassword(c, w.tables.users, w.hashes[e.sid])
  {
    hide ShownPassword;
    hide Run, RowFits, Assembles, HashChecked, KeyExchanged;
    assert Inv(c, t0, Start(t0)) by {
      assert t0.transactions + Rows([]) == t0.transactions;
    }
    RunKeepsInv(c, t0, Start(t0), steps);
    var w := Run(c, Start(t0), steps).value;
    assert StoredInv(c, w, w.stored[i]);
    CheckedMeansShown(c, w, w.stored[i].sid, w.hashes[w.stored[i].sid].user);
  }

  /**
   What a poll returns from a row added during the run is a text some logged-in thread assembled: sent by
   the user of that thread, addressed to the polling user, encrypted under the polling thread's key.
   */
  lemma ReturnedWasStored(c: Crypto, t0: Tables, steps: seq<Step>, j: nat)
    requires Run(c, Start(t0), steps).Some?
    requires j < |Run(c, Start(t0), steps).value.returned|
    ensures var w := Run(c, Start(t0), steps).value;
            var r := w.returned[j];
            && LoggedIn(c, w, r.sid, r.user)
            && r.row < |t0.transactions| + |w.stored|
            && r.reply.PollResponse? && |r.reply.records| == 1 && r.reply.records[0].receiver == r.user
            && (r.row >= |t0.transactions| ==>
                  var e := w.stored[r.row - |t0.transactions|];
                  && e.sid in w.hashes && LoggedIn(c, w, e.sid, w.hashes[e.sid].user)
                  && e.order.receiver == r.user
                  && r.reply.records[0].sender == w.hashes[e.sid].user
                  && r.reply.records[0].message == c.encrypt(w.keys[r.sid].key,
                                                             Assembled(c, w.keys[e.sid].key, e.order.list)))
  {
    hide Run, ThreadInv, HashChecked, KeyExchanged;
    assert Inv(c, t0, Start(t0)) by {
      assert t0.transactions + Rows([]) == t0.transactions;
    }
    RunKeepsInv(c, t0, Start(t0), steps);
    var w := Run(c, Start(t0), steps).value;
    assert ReturnedInv(c, w, w.returned[j]);
    if w.returned[j].row >= |t0.transactions| {
      assert StoredInv(c, w, w.stored[w.returned[j].row - |t0.transactions|]);
    }
  }

  function FiveStatements(sid: nat, pick: nat): seq<Step> {
    seq(5, _ => Statement(sid, pick))
  }

  /** Run without interruption the five statements store what the thread alone would have stored. */
  lemma UninterruptedStore(c: Crypto, w: World, sid: nat, m: Message, results: Results, stale: Memory)
    requires sid in w.threads && w.threads[sid].state.Chatting? && w.threads[sid].job.Idle?
    requires m.PollResponse? && m.records != [] && m.records[0].sender == w.threads[sid].state.user
    ensures var s := w.threads[sid].state;
            var text := Assembled(c, s.key, m.records);
            var id := MessageId(w.tables.messages + [text], text);
            && id.Some?
            && var after := Run(c, ChatMessage(c, w, sid, m, results, stale), FiveStatements(sid, id.value));
               && after.Some?
               && after.value.tables == ChatStep(c, s, w.tables, m, results, stale).tables
               && after.value.threads == w.threads && after.value.returned == w.returned
  {
    hide Assembled, Run, MessageId, UserId, Truncated;
    var s := w.threads[sid].state;
    var order := Order(m.records[0].receiver, Assembled(c, s.key, m.records), m.records[0].time, m.records);
    var messages := w.tables.messages + [order.text];
    assert messages[|w.tables.messages|] == order.text;
    var pick := MessageId(messages, order.text).value;
    var w0 := ChatMessage(c, w, sid, m, results, stale);
    var w5 := StoreAlone(w0, sid, order, pick);
    RunFive(c, w0, sid, pick);
    assert w5.threads == w.threads;
  }

  /** The five statements, one after the other, each in the state the one before has left. */
  lemma StoreAlone(w0: World, sid: nat, order: Order, pick: nat) returns (w5: World)
    requires sid in w0.threads && w0.threads[sid].state.Chatting? && w0.threads[sid].job == InsertText(order)
    requires MessageId(w0.tables.messages + [order.text], order.text) == Some(pick)
    ensures After(w0, sid, pick, 5) == Some(w5)
    ensures var s := w0.threads[sid].state;
            var t1 := w0.tables.(messages := w0.tables.messages + [order.text]);
            var row := StoredRow(t1, s.user, order.receiver, order.text, order.time);
            && w5.tables == t1.(transactions := t1.transactions + [row])
            && w5.threads == w0.threads[sid := Thread(s, Idle)] && w5.returned == w0.returned
  {
    hide MessageId, UserId, Truncated;
    var w1 := RunStatement(w0, sid, pick).value;
    var w2 := RunStatement(w1, sid, pick).value;
    var w3 := RunStatement(w2, sid, pick).value;
    var w4 := RunStatement(w3, sid, pick).value;
    w5 := RunStatement(w4, sid, pick).value;
    assert After(w4, sid, pick, 1) == Some(w5);
    assert After(w3, sid, pick, 2) == Some(w5);
    assert After(w2, sid, pick, 3) == Some(w5);
    assert After(w1, sid, pick, 4) == Some(w5);
    assert w5.threads == w0.threads[sid := Thread(w0.threads[sid].state, Idle)];
  }

  /** `n` statements of one thread. */
  function After(w: World, sid: nat, pick: nat, n: nat): Option<World>
    decreases n
  {
    if n == 0 then Some(w)
    else if sid !in w.threads || !w.threads[sid].state.Chatting? then None
    else
      var next := RunStatement(w, sid, pick);
      if next.None? then None else After(next.value, sid, pick, n - 1)
  }

  lemma {:induction false} RunStatements(c: Crypto, w: World, sid: nat, pick: nat, n: nat)
    ensures Run(c, w, seq(n, _ => Statement(sid, pick))) == After(w, sid, pick, n)
    decreases n
  {
    hide RunStatement;
    if n > 0 {
      var steps: seq<Step> := seq(n, _ => Statement(sid, pick));
      assert steps[0] == Statement(sid, pick) && steps[1..] == seq(n - 1, _ => Statement(sid, pick));
      if sid in w.threads && w.threads[sid].state.Chatting? && RunStatement(w, sid, pick).Some? {
        RunStatements(c, RunStatement(w, sid, pick).value, sid, pick, n - 1);
      }
    }
  }

  lemma RunFive(c: Crypto, w: World, sid: nat, pick: nat)
    ensures Run(c, w, FiveStatements(sid, pick)) == After(w, sid, pick, 5)
  {
    hide Run, After;
    RunStatements(c, w, sid, pick, 5);
    assert FiveStatements(sid, pick) == seq(5, _ => Statement(sid, pick));
  }
}
