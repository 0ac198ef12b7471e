/** One thread of the server from its first message to its last, as a run of the threads of `Concurrent`. */
module ThreadRun {
  import opened Wrappers
  import opened Bytes
  import opened Messages
  import opened Database
  import opened Server
  import opened Concurrent

  /**
   While every message finds the thread chatting and rounds are left, the chat loop sends the replies to all of them,
   one after the other, and leaves the tables that the last one leaves.
   */
  lemma {:induction false} ChatRunChain(c: Crypto, inbox: seq<Message>, rounds: nat, results: nat -> Results,
                                        stale: nat -> Memory, states: seq<State>, tables: seq<Tables>,
                                        replies: seq<seq<Message>>)
    requires |states| == |tables| == |inbox| + 1 && |replies| == |inbox| <= rounds
    requires forall i :: 0 <= i < |inbox| ==>
               && states[i].Chatting?
               && ChatStep(c, states[i], tables[i], inbox[i], results(rounds - i), stale(rounds - i))
                  == Reaction(states[i + 1], replies[i], tables[i + 1])
    ensures var r := ChatRun(c, states[0], tables[0], inbox, rounds, results, stale);
            && r.replies == Flatten(replies) && r.tables == tables[|inbox|]
            && r.state == if states[|inbox|].Chatting? then Closed else states[|inbox|]
    decreases |inbox|
  {
    hide ChatStep;
    if inbox != [] {
      forall i | 0 <= i < |inbox[1..]|
        ensures states[1..][i].Chatting?
        ensures ChatStep(c, states[1..][i], tables[1..][i], inbox[1..][i], results(rounds - 1 - i),
                         stale(rounds - 1 - i))
             == Reaction(states[1..][i + 1], replies[1..][i], tables[1..][i + 1])
      {
        assert rounds - (i + 1) == rounds - 1 - i;
        assert states[i + 1].Chatting?;
      }
      ChatRunChain(c, inbox[1..], rounds - 1, results, stale, states[1..], tables[1..], replies[1..]);
    }
  }

  /** Messages beyond the rounds that the time allows are not read. */
  lemma {:induction false} NoMoreRounds(c: Crypto, s: State, t: Tables, inbox: seq<Message>, more: seq<Message>,
                                        results: nat -> Results, stale: nat -> Memory)
    ensures ChatRun(c, s, t, inbox + more, |inbox|, results, stale) == ChatRun(c, s, t, inbox, |inbox|, results, stale)
    decreases |inbox|
  {
    hide ChatStep;
    if s.Chatting? && inbox != [] {
      var now := ChatStep(c, s, t, inbox[0], results(|inbox|), stale(|inbox|));
      assert (inbox + more)[0] == inbox[0] && (inbox + more)[1..] == inbox[1..] + more;
      NoMoreRounds(c, now.state, now.tables, inbox[1..], more, results, stale);
    }
  }

  lemma {:induction false} RunAppend(c: Crypto, w: World, a: seq<Step>, b: seq<Step>)
    ensures Run(c, w, a + b) == if Run(c, w, a).None? then None else Run(c, Run(c, w, a).value, b)
    decreases |a|
  {
    hide Apply;
    if a == [] {
      assert a + b == b;
    } else {
      assert (a + b)[0] == a[0] && (a + b)[1..] == a[1..] + b;
      if Apply(c, w, a[0]).Some? {
        RunAppend(c, Apply(c, w, a[0]).value, a[1..], b);
      }
    }
  }

  lemma RunOne(c: Crypto, w: World, step: Step)
    ensures Run(c, w, [step]) == Apply(c, w, step)
  {
    hide Apply;
    assert [step][1..] == [];
  }

  function Sent(log: seq<Returned>): seq<Message> {
    seq(|log|, i requires 0 <= i < |log| => log[i].reply)
  }

  /** The thread is idle in this state. */
  predicate Is(w: World, sid: nat, s: State) {
    sid in w.threads && w.threads[sid] == Thread(s, Idle)
  }

  /** From one world to another only this thread has done something: these tables, these replies, this state. */
  ghost predicate Became(w: World, w': World, sid: nat, s: State, t: Tables, replies: seq<Message>) {
    && w'.threads == w.threads[sid := Thread(s, Idle)]
    && w'.tables == t && Sent(w'.returned) == Sent(w.returned) + replies
  }

  lemma BecameThen(w: World, w1: World, w2: World, sid: nat, s1: State, t1: Tables, r1: seq<Message>, s2: State,
                   t2: Tables, r2: seq<Message>)
    requires Became(w, w1, sid, s1, t1, r1) && Became(w1, w2, sid, s2, t2, r2)
    ensures Became(w, w2, sid, s2, t2, r1 + r2)
  {
  }

  /** A message of the chat loop: it is received, and what it leads to is stored statement by statement. */
  lemma OneMessage(c: Crypto, w: World, sid: nat, s: State, m: Message, results: Results, stale: Memory)
    returns (steps: seq<Step>)
    requires s.Chatting? && Is(w, sid, s)
    ensures var r := ChatStep(c, s, w.tables, m, results, stale);
            var after := Run(c, w, steps);
            after.Some? && Became(w, after.value, sid, r.state, r.tables, r.replies)
  {
    hide Assembled, Replies, IsResult, Truncated, Run, StoredRow;
    var receive := Receive(sid, m, [], [], results, stale);
    steps := [receive];
    RunOne(c, w, receive);
    var w1 := ChatMessage(c, w, sid, m, results, stale);
    if m.PollResponse? && m.records != [] && m.records[0].sender == s.user {
      UninterruptedStore(c, w, sid, m, results, stale);
      var text := Assembled(c, s.key, m.records);
      var pick := MessageId(w.tables.messages + [text], text).value;
      RunAppend(c, w, steps, FiveStatements(sid, pick));
      steps := steps + FiveStatements(sid, pick);
    } else if m.Poll? && m.user == s.user && m.time >= 0 {
      PollLogged(c, w, sid, s, m, results, stale);
    }
  }

  lemma PollLogged(c: Crypto, w: World, sid: nat, s: State, m: Message, results: Results, stale: Memory)
    requires s.Chatting? && Is(w, sid, s) && m.Poll? && m.user == s.user && m.time >= 0
    ensures var r := ChatStep(c, s, w.tables, m, results, stale);
            var w' := ChatMessage(c, w, sid, m, results, stale);
            Sent(w'.returned) == Sent(w.returned) + r.replies
  {
    hide Replies, IsResult, Truncated;
    var hits := results(w.tables, Truncated(m.time, 1000), m.user);
    ResultIsSelected(w.tables, hits, Truncated(m.time, 1000), m.user);
    RepliesAre(c, s.key, w.tables, hits, 0, m.user, m.time, stale);
  }

  /** The chat loop is a run of steps of its thread. */
  lemma {:induction false} ChatIsRun(c: Crypto, w: World, sid: nat, s: State, inbox: seq<Message>, rounds: nat,
                                     results: nat -> Results, stale: nat -> Memory)
    returns (steps: seq<Step>)
    requires Is(w, sid, s) && !InLogin(s)
    ensures var r := ChatRun(c, s, w.tables, inbox, rounds, results, stale);
            var after := Run(c, w, steps);
            after.Some? && Became(w, after.value, sid, r.state, r.tables, r.replies)
    decreases |inbox|
  {
    hide ChatStep, Run, Became;
    if !s.Chatting? {
      steps := [];
      NoStep(c, w);
      NothingBecame(w, sid, s);
    } else if rounds == 0 || inbox == [] {
      steps := [Expire(sid)];
      Expires(c, w, sid, s);
    } else {
      var now := ChatStep(c, s, w.tables, inbox[0], results(rounds), stale(rounds));
      var first := OneMessage(c, w, sid, s, inbox[0], results(rounds), stale(rounds));
      var w1 := Run(c, w, first).value;
      BecameIs(w, w1, sid, now.state, now.tables, now.replies);
      ChatKeepsOut(c, s, w.tables, inbox[0], results(rounds), stale(rounds));
      var later := ChatIsRun(c, w1, sid, now.state, inbox[1..], rounds - 1, results, stale);
      steps := first + later;
      RunAppend(c, w, first, later);
      var r := ChatRun(c, now.state, now.tables, inbox[1..], rounds - 1, results, stale);
      BecameThen(w, w1, Run(c, w1, later).value, sid, now.state, now.tables, now.replies, r.state, r.tables, r.replies);
    }
  }

  lemma NoStep(c: Crypto, w: World)
    ensures Run(c, w, []) == Some(w)
  {
  }

  lemma NothingBecame(w: World, sid: nat, s: State)
    requires Is(w, sid, s)
    ensures Became(w, w, sid, s, w.tables, [])
  {
    assert w.threads[sid := w.threads[sid]] == w.threads;
  }

  lemma Expires(c: Crypto, w: World, sid: nat, s: State)
    requires Is(w, sid, s) && (s.Chatting? || InLogin(s))
    ensures Run(c, w, [Expire(sid)]).Some? && Became(w, Run(c, w, [Expire(sid)]).value, sid, Closed, w.tables, [])
  {
    RunOne(c, w, Expire(sid));
  }

  lemma BecameIs(w: World, w': World, sid: nat, s: State, t: Tables, replies: seq<Message>)
    requires Became(w, w', sid, s, t, replies)
    ensures Is(w', sid, s) && w'.tables == t
  {
  }

  lemma ChatKeepsOut(c: Crypto, s: State, t: Tables, m: Message, results: Results, stale: Memory)
    requires s.Chatting?
    ensures !InLogin(ChatStep(c, s, t, m, results, stale).state)
  {
    hide Replies, Assembled, Truncated;
  }

  /** So is the dialogue in front of it. */
  lemma {:induction false} LoginIsRun(c: Crypto, w: World, sid: nat, s: State, inbox: seq<Message>, challenge: bytes,
                                      privateKey: bytes, results: Results, stale: Memory)
    returns (steps: seq<Step>)
    requires Is(w, sid, s)
    ensures var r := LoginRun(c, w.tables.users, s, inbox, challenge, privateKey);
            var after := Run(c, w, steps);
            after.Some? && Became(w, after.value, sid, r.0, w.tables, []) && !InLogin(r.0)
    decreases |inbox|
  {
    hide LoginStep, Run, Became;
    if !InLogin(s) {
      steps := [];
      NoStep(c, w);
      NothingBecame(w, sid, s);
    } else if inbox == [] {
      steps := [Expire(sid)];
      Expires(c, w, sid, s);
    } else {
      var (next, _) := LoginStep(c, w.tables.users, s, inbox[0], challenge, privateKey);
      var first := [Receive(sid, inbox[0], challenge, privateKey, results, stale)];
      var w1 := OneLoginMessage(c, w, sid, s, inbox[0], challenge, privateKey, results, stale);
      BecameIs(w, w1, sid, next, w.tables, []);
      var later := LoginIsRun(c, w1, sid, next, inbox[1..], challenge, privateKey, results, stale);
      steps := first + later;
      RunAppend(c, w, first, later);
      var last := LoginRun(c, w.tables.users, next, inbox[1..], challenge, privateKey).0;
      var none: seq<Message> := [];
      BecameThen(w, w1, Run(c, w1, later).value, sid, next, w.tables, none, last, w.tables, none);
      assert none + none == none;
    }
  }

  lemma OneLoginMessage(c: Crypto, w: World, sid: nat, s: State, m: Message, challenge: bytes, privateKey: bytes,
                        results: Results, stale: Memory)
    returns (w1: World)
    requires Is(w, sid, s) && InLogin(s)
    ensures Run(c, w, [Receive(sid, m, challenge, privateKey, results, stale)]) == Some(w1)
    ensures Became(w, w1, sid, LoginStep(c, w.tables.users, s, m, challenge, privateKey).0, w.tables, [])
  {
    hide LoginStep;
    RunOne(c, w, Receive(sid, m, challenge, privateKey, results, stale));
    w1 := LoginMessage(c, w, sid, m, challenge, privateKey);
  }

  /**
   What a thread does alone, as `Server.ClientConnectStart` states it, is what it does as one thread of many when no
   other one comes in between: it connects, takes the messages of the login one by one, and then those of the chat,
   storing what they ask for statement by statement. So whatever holds of all runs holds of the thread's own loop.
   */
  lemma ThreadIsRun(c: Crypto, w: World, sid: nat, inbox: seq<Message>, challenge: bytes, privateKey: bytes,
                    rounds: nat, results: nat -> Results, stale: nat -> Memory)
    returns (steps: seq<Step>)
    requires sid !in w.threads
    ensures var (last, _, rest) := LoginRun(c, w.tables.users, AwaitLogin, inbox, challenge, privateKey);
            var chat := ChatRun(c, last, w.tables, rest, rounds, results, stale);
            var after := Run(c, w, steps);
            && after.Some? && after.value.tables == chat.tables
            && Sent(after.value.returned) == Sent(w.returned) + chat.replies
            && after.value.threads == w.threads[sid := Thread(chat.state, Idle)]
  {
    hide LoginRun, ChatRun, Run;
    var w0 := Put(w, sid, Thread(AwaitLogin, Idle));
    RunOne(c, w, Connect(sid));
    var login := LoginIsRun(c, w0, sid, AwaitLogin, inbox, challenge, privateKey, results(0), stale(0));
    var (last, _, rest) := LoginRun(c, w.tables.users, AwaitLogin, inbox, challenge, privateKey);
    var w1 := Run(c, w0, login).value;
    BecameIs(w0, w1, sid, last, w.tables, []);
    var chat := ChatIsRun(c, w1, sid, last, rest, rounds, results, stale);
    steps := [Connect(sid)] + (login + chat);
    RunAppend(c, w0, login, chat);
    RunAppend(c, w, [Connect(sid)], login + chat);
  }
}
