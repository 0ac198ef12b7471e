/**
 Which poll delivers which row, over whole runs: one client polls with the time of its previous poll, the server's
 thread answers each poll as its chat loop does, and other threads keep adding rows.
 */
module Polling {
  import opened Wrappers
  import opened Bytes
  import opened Messages
  import opened JavaCodec
  import opened Database
  import opened Server

  const WAIT_TIME := 5000

  type Millis = t: int64 | 0 <= t

  /** The polling user's session. */
  datatype Config = Config(crypto: Crypto, user: bytes, key: bytes)

  /** A poll the server has handled: how many rows there were, the query's result, and the replies that went out. */
  datatype Answered = Answered(time: Millis, seen: nat, hits: seq<nat>, replies: seq<Message>, stale: Memory)

  /** All times are readings of one clock. */
  datatype State = State(
    clock: Millis,
    last: Millis,           // the poll thread's lastPollTime
    due: bool,              // a poll has been sent and `last` is still to be read from the clock
    inFlight: seq<Millis>,  // the times the polls under way carry
    server: Server.State,
    tables: Tables,
    polls: seq<Answered>)

  datatype Event =
    | Tick(now: Millis)
    | Send
    | Advance
    | Query(results: Results, stale: Memory)
    | StoreText(text: bytes)
    | StoreRow(row: Row)

  /** Ids of texts are those of rows. */
  predicate KnownText(t: Tables, row: Row) {
    row.message.Some? ==> row.message.value < |t.messages|
  }

  predicate WellFormed(t: Tables) {
    forall k :: 0 <= k < |t.transactions| ==> KnownText(t, t.transactions[k])
  }

  function Init(cfg: Config, t: Tables, now: Millis): State {
    State(now, now, false, [], Chatting(cfg.user, cfg.key), t, [])
  }

  /** The session is a user's, and the rows there are were stored before the clock's reading. */
  predicate Starts(cfg: Config, t: Tables, now: Millis) {
    && ValidUsername(cfg.user) && WellFormed(t)
    && forall k :: 0 <= k < |t.transactions| ==> t.transactions[k].seconds <= now / 1000
  }

  function Apply(cfg: Config, s: State, e: Event): Option<State> {
    match e
    case Tick(now) => if now < s.clock then None else Some(s.(clock := now))
    case Send =>
      if s.due || s.clock <= s.last + WAIT_TIME then None
      else Some(s.(due := true, inFlight := s.inFlight + [s.last]))
    case Advance => if s.due then Some(s.(due := false, last := s.clock)) else None
    case Query(results, stale) =>
      if s.inFlight == [] || !s.server.Chatting? then None
      else
        var time := s.inFlight[0];
        var hits := results(s.tables, Truncated(time, 1000), cfg.user);
        var r := ChatStep(cfg.crypto, s.server, s.tables, Poll(cfg.user, time), results, stale);
        Some(s.(inFlight := s.inFlight[1..], server := r.state,
                polls := s.polls + [Answered(time, |s.tables.transactions|, hits, r.replies, stale)]))
    case StoreText(text) => Some(s.(tables := s.tables.(messages := s.tables.messages + [text])))
    case StoreRow(row) =>
      if !KnownText(s.tables, row) || row.seconds > s.clock / 1000 then None
      else Some(s.(tables := s.tables.(transactions := s.tables.transactions + [row])))
  }

  /** `prompt`: every poll is answered before the client reads the clock again. */
  function Run(cfg: Config, s: State, events: seq<Event>, prompt: bool): Option<State>
    decreases |events|
  {
    if events == [] then Some(s)
    else if prompt && events[0].Advance? && s.inFlight != [] then None
    else
      var next := Apply(cfg, s, events[0]);
      if next.None? then None else Run(cfg, next.value, events[1..], prompt)
  }

  class PollThread {
    var lastPollTime: Millis

    constructor (now: Millis)
      ensures lastPollTime == now
    {
      lastPollTime := now;
    }

    /**
     One round of the polling loop; the result is the time a poll was sent with, if one was. It is a run of the model:
     time passes, and a poll is sent and the clock read again, or not.
     */
    method Round(clock: Clock, ghost cfg: Config, ghost s: State)
        returns (sent: Option<Millis>, ghost events: seq<Event>)
      requires clock.now >= 0 && s.clock == clock.now && s.last == lastPollTime && !s.due
      modifies this, clock
      ensures clock.now >= old(clock.now)
      ensures sent.None? ==> lastPollTime == old(lastPollTime) && clock.now <= old(lastPollTime) + WAIT_TIME
      ensures sent.Some? ==>
          sent.value == old(lastPollTime)
          && old(lastPollTime) + WAIT_TIME < lastPollTime == clock.now
      ensures var r := Run(cfg, s, events, false);
              && r.Some?
              && r.value == s.(clock := clock.now, last := lastPollTime,
                               inFlight := s.inFlight + if sent.Some? then [sent.value] else [])
    {
      sent := None;
      var now := clock.CurrentTimeMillis();
      ghost var s1 := s.(clock := now);
      events := [Tick(now)];
      OneEvent(cfg, s, Tick(now), []);
      if now > lastPollTime + WAIT_TIME {
        sent := Some(lastPollTime);
        lastPollTime := clock.CurrentTimeMillis();
        ghost var s2 := s1.(due := true, inFlight := s.inFlight + [s1.last]);
        events := [Tick(now), Send, Tick(lastPollTime), Advance];
        ghost var s3 := s2.(clock := lastPollTime);
        OneEvent(cfg, s3, Advance, []);
        OneEvent(cfg, s2, Tick(lastPollTime), [Advance]);
        OneEvent(cfg, s1, Send, [Tick(lastPollTime), Advance]);
        OneEvent(cfg, s, Tick(now), [Send, Tick(lastPollTime), Advance]);
        assert events == [Tick(now)] + [Send, Tick(lastPollTime), Advance];
        assert [Send, Tick(lastPollTime), Advance] == [Send] + [Tick(lastPollTime), Advance];
        assert [Tick(lastPollTime), Advance] == [Tick(lastPollTime)] + [Advance];
        assert [Advance] == [Advance] + [];
      } else {
        assert events == [Tick(now)] + [];
      }
    }
  }

  lemma OneEvent(cfg: Config, s: State, e: Event, rest: seq<Event>)
    requires Apply(cfg, s, e).Some?
    ensures Run(cfg, s, [e] + rest, false) == Run(cfg, Apply(cfg, s, e).value, rest, false)
  {
    hide Apply;
    assert ([e] + rest)[1..] == rest;
  }

  // ---------- What a poll delivers ----------

  /** Row `k` is the polling user's and of a later second than the poll carries. */
  predicate Later(cfg: Config, s: State, k: nat, j: nat) {
    && j < |s.polls| && k < |s.tables.transactions|
    && Joins(s.tables, s.tables.transactions[k], cfg.user)
    && s.tables.transactions[k].seconds > s.polls[j].time / 1000
  }

  /** No setter refuses the fields of a reply for row `k`, built in this memory. */
  predicate Answerable(cfg: Config, t: Tables, k: nat, stale: int64)
    requires k < |t.transactions| && Joins(t, t.transactions[k], cfg.user)
  {
    var row := t.transactions[k];
    && ValidUsername(t.users[row.sender.value].email)
    && |t.messages[row.message.value]| <= MAX_MESSAGE_LENGTH
    && stale >= 0
  }

  /** A reply for row `k` went out to poll `j`. */
  predicate Delivered(s: State, k: nat, j: nat) {
    && j < |s.polls|
    && exists i :: 0 <= i < |s.polls[j].replies| && i < |s.polls[j].hits| && s.polls[j].hits[i] == k
  }

  /** Row `k` is in the result for poll `j`, and neither it nor a row in front of it there is refused. */
  predicate Passes(cfg: Config, s: State, k: nat, j: nat)
    requires j < |s.polls|
  {
    var p := s.polls[j];
    exists i :: 0 <= i < |p.hits| && p.hits[i] == k && AnswerableUpTo(cfg, s.tables, p.hits, i, p.stale)
  }

  /** No row of a result is refused up to place `i`. */
  predicate AnswerableUpTo(cfg: Config, t: Tables, hits: seq<nat>, i: nat, stale: Memory)
    requires i < |hits|
  {
    forall i' :: 0 <= i' <= i ==>
        && hits[i'] < |t.transactions| && Joins(t, t.transactions[hits[i']], cfg.user)
        && Answerable(cfg, t, hits[i'], stale(i'))
  }

  lemma ReplyExists(cfg: Config, t: Tables, k: nat, time: Millis, stale: int64)
    requires ValidUsername(cfg.user) && k < |t.transactions| && Joins(t, t.transactions[k], cfg.user)
    ensures Reply(cfg.crypto, cfg.key, t, k, cfg.user, time, stale).Some? <==> Answerable(cfg, t, k, stale)
  {
  }

  // ---------- Invariants ----------

  /** The rows selected among the first `n`, each once. */
  ghost predicate HitsAre(cfg: Config, t: Tables, n: nat, hits: seq<nat>, time: Millis) {
    && n <= |t.transactions| && Selected(t, hits, cfg.user)
    && (forall k :: k in hits <==>
        0 <= k < n && Joins(t, t.transactions[k], cfg.user)
        && t.transactions[k].seconds > time / 1000)
    && (forall i, i' :: 0 <= i < i' < |hits| ==> hits[i] != hits[i'])
  }

  /** The replies to them, up to the first row that is refused. */
  ghost predicate RepliesFit(cfg: Config, t: Tables, hits: seq<nat>, replies: seq<Message>, time: Millis, stale: Memory)
    requires Selected(t, hits, cfg.user)
  {
    && |replies| <= |hits|
    && (forall i :: 0 <= i < |replies| ==>
          Some(replies[i]) == Reply(cfg.crypto, cfg.key, t, hits[i], cfg.user, time, stale(i)))
    && (|replies| < |hits| ==>
          Reply(cfg.crypto, cfg.key, t, hits[|replies|], cfg.user, time, stale(|replies|)).None?)
  }

  /** What the server has done about a poll, said of the tables as they are now. */
  ghost predicate PollFits(cfg: Config, s: State, p: Answered) {
    HitsAre(cfg, s.tables, p.seen, p.hits, p.time) && RepliesFit(cfg, s.tables, p.hits, p.replies, p.time, p.stale)
  }

  /** The order of times and rows. */
  predicate InOrder(s: State) {
    && s.last <= s.clock
    && (forall i, j :: 0 <= i < j < |s.polls| ==>
        s.polls[i].time <= s.polls[j].time
        && s.polls[i].seen <= s.polls[j].seen)
    && (forall i, j :: 0 <= i < j < |s.inFlight| ==> s.inFlight[i] <= s.inFlight[j])
    && (forall i, j :: 0 <= i < |s.polls| && 0 <= j < |s.inFlight| ==> s.polls[i].time <= s.inFlight[j])
    && (forall i :: 0 <= i < |s.polls| ==> s.polls[i].time <= s.last && s.polls[i].seen <= |s.tables.transactions|)
    && (forall j :: 0 <= j < |s.inFlight| ==> s.inFlight[j] <= s.last)
    && (forall k :: 0 <= k < |s.tables.transactions| ==> s.tables.transactions[k].seconds <= s.clock / 1000)
  }

  /** Only the last poll can have been broken off, and then the session is closed. */
  ghost predicate Inv(cfg: Config, s: State) {
    && ValidUsername(cfg.user) && WellFormed(s.tables) && InOrder(s)
    && (s.server == Chatting(cfg.user, cfg.key) || s.server.Closed?)
    && (forall j :: 0 <= j < |s.polls| ==> PollFits(cfg, s, s.polls[j]))
    && (forall j :: 0 <= j < |s.polls| && |s.polls[j].replies| < |s.polls[j].hits| ==>
        s.server.Closed?
        && j == |s.polls| - 1)
  }

  lemma OrderKept(cfg: Config, s: State, e: Event)
    requires InOrder(s) && Apply(cfg, s, e).Some?
    ensures InOrder(Apply(cfg, s, e).value)
  {
    hide ChatStep, IsResult;
  }

  /** Tables only grow, and rows keep their texts. */
  predicate Grown(t: Tables, t': Tables) {
    && WellFormed(t) && t'.users == t.users
    && t.messages <= t'.messages && t.transactions <= t'.transactions
  }

  lemma PollFitsStill(cfg: Config, s: State, s': State, p: Answered)
    requires PollFits(cfg, s, p) && Grown(s.tables, s'.tables)
    ensures PollFits(cfg, s', p)
  {
    hide ValidUsername;
    forall k | 0 <= k < |s.tables.transactions|
      ensures Joins(s'.tables, s'.tables.transactions[k], cfg.user)
          == Joins(s.tables, s.tables.transactions[k], cfg.user)
      ensures s'.tables.transactions[k] == s.tables.transactions[k]
    {
      assert KnownText(s.tables, s.tables.transactions[k]);
    }
    forall i, stale | 0 <= i < |p.hits|
      ensures Reply(cfg.crypto, cfg.key, s'.tables, p.hits[i], cfg.user, p.time, stale)
           == Reply(cfg.crypto, cfg.key, s.tables, p.hits[i], cfg.user, p.time, stale)
    {
      assert s.tables.messages <= s'.tables.messages;
    }
  }

  lemma HitsFit(cfg: Config, t: Tables, hits: seq<nat>, time: Millis)
    requires IsResult(t, Truncated(time, 1000), cfg.user, hits)
    ensures HitsAre(cfg, t, |t.transactions|, hits, time)
  {
    hide Joins;
    ResultIsSelected(t, hits, Truncated(time, 1000), cfg.user);
  }

  lemma LoopFits(cfg: Config, t: Tables, hits: seq<nat>, time: Millis, stale: Memory)
    requires Selected(t, hits, cfg.user)
    ensures var r := Replies(cfg.crypto, cfg.key, t, hits, 0, cfg.user, time, stale);
            RepliesFit(cfg, t, hits, r.0, time, stale) && (r.1 <==> |r.0| == |hits|)
  {
    hide Reply, Joins, Replies;
    RepliesAre(cfg.crypto, cfg.key, t, hits, 0, cfg.user, time, stale);
  }

  lemma QueryFits(cfg: Config, s: State, e: Event)
    requires Inv(cfg, s) && e.Query? && Apply(cfg, s, e).Some?
    ensures var s' := Apply(cfg, s, e).value;
            var p := s'.polls[|s.polls|];
            && PollFits(cfg, s', p)
            && s'.server == if |p.replies| == |p.hits| then s.server else Closed
  {
    hide InOrder, ValidUsername, IsResult, Replies, Joins, RepliesFit, HitsAre, Truncated, WellFormed;
    var time := s.inFlight[0];
    var hits := e.results(s.tables, Truncated(time, 1000), cfg.user);
    HitsFit(cfg, s.tables, hits, time);
    HitsSelected(cfg, s.tables, |s.tables.transactions|, hits, time);
    LoopFits(cfg, s.tables, hits, time, e.stale);
  }

  lemma HitsSelected(cfg: Config, t: Tables, n: nat, hits: seq<nat>, time: Millis)
    requires HitsAre(cfg, t, n, hits, time)
    ensures Selected(t, hits, cfg.user)
  {
  }

  lemma StepKeepsInv(cfg: Config, s: State, e: Event)
    requires Inv(cfg, s) && Apply(cfg, s, e).Some?
    ensures Inv(cfg, Apply(cfg, s, e).value)
  {
    hide PollFits, InOrder, ChatStep, IsResult, ValidUsername;
    var s' := Apply(cfg, s, e).value;
    OrderKept(cfg, s, e);
    assert Grown(s.tables, s'.tables);
    if e.Query? {
      QueryFits(cfg, s, e);
    }
    forall j | 0 <= j < |s.polls|
      ensures PollFits(cfg, s', s'.polls[j])
    {
      PollFitsStill(cfg, s, s', s.polls[j]);
    }
  }

  lemma {:induction false} RunKeepsInv(cfg: Config, s: State, events: seq<Event>, prompt: bool)
    requires Inv(cfg, s) && Run(cfg, s, events, prompt).Some?
    ensures Inv(cfg, Run(cfg, s, events, prompt).value)
    decreases |events|
  {
    hide Inv, Apply;
    if events != [] {
      StepKeepsInv(cfg, s, events[0]);
      RunKeepsInv(cfg, Apply(cfg, s, events[0]).value, events[1..], prompt);
    }
  }

  // ---------- Delivery ----------

  /** `j` is the first poll answered after row `k` was stored. */
  predicate FirstPoll(s: State, k: nat, j: nat) {
    && j < |s.polls| && k < s.polls[j].seen
    && forall i :: 0 <= i < j ==> s.polls[i].seen <= k
  }

  /** A poll delivers the row exactly if it is in the result and no row up to its place there is refused. */
  lemma DeliveredMeans(cfg: Config, s: State, k: nat, j: nat)
    requires Inv(cfg, s) && j < |s.polls|
    ensures Delivered(s, k, j) <==> Passes(cfg, s, k, j)
    ensures Passes(cfg, s, k, j) ==> k < s.polls[j].seen && Later(cfg, s, k, j)
  {
    hide Reply, Answerable, ValidUsername, InOrder, WellFormed;
    var p := s.polls[j];
    assert PollFits(cfg, s, p);
    forall i | 0 <= i < |p.hits|
      ensures Reply(cfg.crypto, cfg.key, s.tables, p.hits[i], cfg.user, p.time, p.stale(i)).Some?
         <==> Answerable(cfg, s.tables, p.hits[i], p.stale(i))
    {
      ReplyExists(cfg, s.tables, p.hits[i], p.time, p.stale(i));
    }
    forall i | 0 <= i < |p.hits|
      ensures i < |p.replies| <==> AnswerableUpTo(cfg, s.tables, p.hits, i, p.stale)
    {
      if i < |p.replies| {
        forall i' | 0 <= i' <= i
          ensures Answerable(cfg, s.tables, p.hits[i'], p.stale(i'))
        {
          assert Some(p.replies[i']) == Reply(cfg.crypto, cfg.key, s.tables, p.hits[i'], cfg.user, p.time, p.stale(i'));
        }
      }
    }
    assert forall i :: 0 <= i < |p.hits| ==> p.hits[i] in p.hits;
  }

  /** A poll that is not the last one delivers all it selects. */
  lemma EarlierPollDelivers(cfg: Config, s: State, k: nat, j: nat)
    requires Inv(cfg, s) && j + 1 < |s.polls| && k < s.polls[j].seen && Later(cfg, s, k, j)
    ensures Delivered(s, k, j)
  {
    hide Reply, ValidUsername, InOrder;
    var p := s.polls[j];
    assert PollFits(cfg, s, p);
    assert k in p.hits;
  }

  /**
   In every run, whatever the delays and whatever order the database returns rows in: a row is delivered by its first
   poll, or never. It is delivered by that poll exactly when its second is strictly later than the second that poll
   carries and no row up to its place in the result is refused, for its length or for its sender's name; then by
   each following poll of which the same is true, and by no other.
   */
  lemma DeliveryDecided(cfg: Config, t: Tables, now: Millis, events: seq<Event>, k: nat, j: nat)
    requires Starts(cfg, t, now) && Run(cfg, Init(cfg, t, now), events, false).Some?
    requires FirstPoll(Run(cfg, Init(cfg, t, now), events, false).value, k, j)
    ensures var s := Run(cfg, Init(cfg, t, now), events, false).value;
            && (Later(cfg, s, k, j) <==> k in s.polls[j].hits)
            && ((exists i: nat :: Delivered(s, k, i)) <==> Later(cfg, s, k, j) && Passes(cfg, s, k, j))
            && (forall i: nat ::
                  Delivered(s, k, i) <==> j <= i < |s.polls| && Later(cfg, s, k, i) && Passes(cfg, s, k, i))
            && (forall i: nat :: Delivered(s, k, i) && i > j ==> Delivered(s, k, i - 1))
  {
    hide Run, PollFits, Delivered, Passes, ValidUsername;
    var s := Run(cfg, Init(cfg, t, now), events, false).value;
    RunKeepsInv(cfg, Init(cfg, t, now), events, false);
    forall i: nat
      ensures Delivered(s, k, i) <==> j <= i < |s.polls| && Later(cfg, s, k, i) && Passes(cfg, s, k, i)
      ensures Delivered(s, k, i) && i > j ==> Delivered(s, k, i - 1)
      ensures Delivered(s, k, i) ==> Delivered(s, k, j)
    {
      DeliveredOnlyBy(s, k, i);
      if i < |s.polls| {
        DeliveredMeans(cfg, s, k, i);
        if Delivered(s, k, i) && i > j {
          EarlierPollDelivers(cfg, s, k, i - 1);
          EarlierPollDelivers(cfg, s, k, j);
        }
      }
    }
    DeliveredMeans(cfg, s, k, j);
    LaterIsSelected(cfg, s, k, j);
  }

  lemma LaterIsSelected(cfg: Config, s: State, k: nat, j: nat)
    requires Inv(cfg, s) && j < |s.polls| && k < s.polls[j].seen
    ensures Later(cfg, s, k, j) <==> k in s.polls[j].hits
  {
    hide InOrder, ValidUsername, RepliesFit, WellFormed, Joins;
    assert PollFits(cfg, s, s.polls[j]);
  }

  lemma DeliveredOnlyBy(s: State, k: nat, i: nat)
    ensures Delivered(s, k, i) ==> i < |s.polls|
  {
  }

  /**
   In every run a second delivery of a row happens exactly when the poll after its first one has been answered and
   carries an earlier second than the row's, and refuses no row up to it.
   */
  lemma DeliveredTwice(cfg: Config, t: Tables, now: Millis, events: seq<Event>, k: nat, j: nat)
    requires Starts(cfg, t, now) && Run(cfg, Init(cfg, t, now), events, false).Some?
    requires FirstPoll(Run(cfg, Init(cfg, t, now), events, false).value, k, j)
    ensures var s := Run(cfg, Init(cfg, t, now), events, false).value;
            (exists i: nat, i': nat :: i < i' && Delivered(s, k, i) && Delivered(s, k, i'))
            <==> j + 1 < |s.polls| && Later(cfg, s, k, j + 1) && Passes(cfg, s, k, j + 1)
  {
    hide Run, PollFits, Delivered, Passes, ValidUsername;
    var s := Run(cfg, Init(cfg, t, now), events, false).value;
    RunKeepsInv(cfg, Init(cfg, t, now), events, false);
    DeliveryDecided(cfg, t, now, events, k, j);
    if j + 1 < |s.polls| && Later(cfg, s, k, j + 1) && Passes(cfg, s, k, j + 1) {
      EarlierPollDelivers(cfg, s, k, j);
      assert Delivered(s, k, j) && Delivered(s, k, j + 1);
    }
    if i: nat, i': nat :| i < i' && Delivered(s, k, i) && Delivered(s, k, i') {
      EarlierInTime(cfg, s, k, j, i');
    }
  }

  /** Delivered by some poll behind the next one, then by the next one too. */
  lemma {:induction false} EarlierInTime(cfg: Config, s: State, k: nat, j: nat, i: nat)
    requires Inv(cfg, s) && FirstPoll(s, k, j) && j < i && Delivered(s, k, i)
    ensures j + 1 < |s.polls| && Delivered(s, k, j + 1)
  {
    hide PollFits, Delivered, Passes, ValidUsername;
    DeliveredOnlyBy(s, k, i);
    DeliveredMeans(cfg, s, k, i);
    if i > j + 1 {
      EarlierPollDelivers(cfg, s, k, j + 1);
    }
  }

  // ---------- How often ----------

  /** The times of all polls sent so far. */
  function Times(s: State): seq<Millis> {
    seq(|s.polls|, i requires 0 <= i < |s.polls| => s.polls[i].time) + s.inFlight
  }

  predicate Apart(a: int, b: int) {
    a + 5000 < b
  }

  predicate Spaced(times: seq<Millis>) {
    forall i :: 0 <= i < |times| - 1 ==> Apart(times[i], times[i + 1])
  }

  predicate SpacedInv(s: State) {
    var times := Times(s);
    && Spaced(times)
    && (s.due ==> times != [] && times[|times| - 1] == s.last && Apart(s.last, s.clock))
    && (!s.due && times != [] ==> Apart(times[|times| - 1], s.last))
  }

  lemma TimesAfter(cfg: Config, s: State, e: Event)
    requires Apply(cfg, s, e).Some?
    ensures var s' := Apply(cfg, s, e).value;
            Times(s') == if e.Send? then Times(s) + [s.last] else Times(s)
  {
    hide ChatStep, IsResult, Truncated;
  }

  lemma StepKeepsSpaced(cfg: Config, s: State, e: Event)
    requires SpacedInv(s) && Apply(cfg, s, e).Some?
    ensures SpacedInv(Apply(cfg, s, e).value)
  {
    hide ChatStep, IsResult, Truncated, Times;
    TimesAfter(cfg, s, e);
  }

  lemma {:induction false} RunKeepsSpaced(cfg: Config, s: State, events: seq<Event>, prompt: bool)
    requires SpacedInv(s) && Run(cfg, s, events, prompt).Some?
    ensures SpacedInv(Run(cfg, s, events, prompt).value)
    decreases |events|
  {
    hide Apply, SpacedInv;
    if events != [] {
      StepKeepsSpaced(cfg, s, events[0]);
      RunKeepsSpaced(cfg, Apply(cfg, s, events[0]).value, events[1..], prompt);
    }
  }

  /** In every run, each poll carries a time more than five seconds later than the one before. */
  lemma PollsAreSpaced(cfg: Config, t: Tables, now: Millis, events: seq<Event>, i: nat)
    requires Run(cfg, Init(cfg, t, now), events, false).Some?
    requires i + 1 < |Run(cfg, Init(cfg, t, now), events, false).value.polls|
    ensures var s := Run(cfg, Init(cfg, t, now), events, false).value;
            Apart(s.polls[i].time, s.polls[i + 1].time)
  {
    hide Run;
    RunKeepsSpaced(cfg, Init(cfg, t, now), events, false);
    var s := Run(cfg, Init(cfg, t, now), events, false).value;
    assert Times(s)[i] == s.polls[i].time && Times(s)[i + 1] == s.polls[i + 1].time;
  }

  // ---------- Prompt answers ----------

  /** The first `seen` rows are of no later second than `time`. */
  predicate SeenBy(rows: seq<Row>, seen: nat, time: Millis) {
    forall k :: 0 <= k < seen && k < |rows| ==> rows[k].seconds <= time / 1000
  }

  /** What an answered poll has seen is no later than the time of any poll after it. */
  predicate PromptInv(s: State) {
    var rows := s.tables.transactions;
    && |s.inFlight| <= 1 && (s.inFlight != [] ==> s.due)
    && (forall i, j :: 0 <= i < j < |s.polls| ==> SeenBy(rows, s.polls[i].seen, s.polls[j].time))
    && (s.inFlight != [] ==> forall i :: 0 <= i < |s.polls| ==> SeenBy(rows, s.polls[i].seen, s.inFlight[0]))
    && (!s.due ==> forall i :: 0 <= i < |s.polls| ==> SeenBy(rows, s.polls[i].seen, s.last))
  }

  lemma StepKeepsPromptInv(cfg: Config, s: State, e: Event)
    requires InOrder(s) && PromptInv(s) && Apply(cfg, s, e).Some? && (e.Advance? ==> s.inFlight == [])
    ensures PromptInv(Apply(cfg, s, e).value)
  {
    hide ChatStep, IsResult;
    var s' := Apply(cfg, s, e).value;
    if e.StoreRow? {
      // no poll answered so far has seen the new row
      forall i, time: Millis | 0 <= i < |s.polls| && SeenBy(s.tables.transactions, s.polls[i].seen, time)
        ensures SeenBy(s'.tables.transactions, s.polls[i].seen, time)
      {
      }
    }
  }

  lemma {:induction false} RunKeepsPromptInv(cfg: Config, s: State, events: seq<Event>)
    requires Inv(cfg, s) && PromptInv(s) && Run(cfg, s, events, true).Some?
    ensures Inv(cfg, Run(cfg, s, events, true).value) && PromptInv(Run(cfg, s, events, true).value)
    decreases |events|
  {
    hide PromptInv, Apply, PollFits, InOrder;
    if events != [] {
      StepKeepsInv(cfg, s, events[0]);
      StepKeepsPromptInv(cfg, s, events[0]);
      RunKeepsPromptInv(cfg, Apply(cfg, s, events[0]).value, events[1..]);
    }
  }

  /** If polls are answered at once, no row is delivered twice. */
  lemma DeliveredOnce(cfg: Config, t: Tables, now: Millis, events: seq<Event>, k: nat, i: nat, j: nat)
    requires Starts(cfg, t, now) && Run(cfg, Init(cfg, t, now), events, true).Some?
    requires var s := Run(cfg, Init(cfg, t, now), events, true).value; Delivered(s, k, i) && Delivered(s, k, j)
    ensures i == j
  {
    hide Run, PollFits, Delivered, Passes, ValidUsername;
    var s := Run(cfg, Init(cfg, t, now), events, true).value;
    RunKeepsPromptInv(cfg, Init(cfg, t, now), events);
    DeliveredOnlyBy(s, k, i);
    DeliveredOnlyBy(s, k, j);
    DeliveredMeans(cfg, s, k, i);
    DeliveredMeans(cfg, s, k, j);
    assert i < j ==> SeenBy(s.tables.transactions, s.polls[i].seen, s.polls[j].time);
    assert j < i ==> SeenBy(s.tables.transactions, s.polls[j].seen, s.polls[i].time);
  }

  /** Such a run exists: a row comes in between the client's reading of the clock and the server's query. */
  lemma LateAnswerDeliversTwice(cfg: Config, results: Results) returns (t: Tables, events: seq<Event>)
    requires ValidUsername(cfg.user)
    ensures Starts(cfg, t, 0) && Run(cfg, Init(cfg, t, 0), events, false).Some?
    ensures var s := Run(cfg, Init(cfg, t, 0), events, false).value; Delivered(s, 0, 0) && Delivered(s, 0, 1)
  {
    hide ValidUsername, Run, Apply, Delivered;
    var stale := _ => 0;
    var query := Query(results, stale);
    var row := Row(Some(0), Some(0), Some(0), 12);
    t := Tables([User(cfg.user, [])], [[]], []);
    var s := Init(cfg, t, 0);
    var s1, s2, s3, s4, s5, s6 := SixEvents(cfg, t, row);
    var s7 := AnswersOne(cfg, s6, row, results, stale);
    var s8 := AnswersOne(cfg, s7, row, results, stale);
    var e7 := [query] + [];
    var e6 := [query] + e7;
    var e5 := [Send] + e6;
    var e4 := [StoreRow(row)] + e5;
    var e3 := [Tick(12000)] + e4;
    var e2 := [Advance] + e3;
    var e1 := [Send] + e2;
    events := [Tick(6000)] + e1;
    OneEvent(cfg, s7, query, []);
    OneEvent(cfg, s6, query, e7);
    OneEvent(cfg, s5, Send, e6);
    OneEvent(cfg, s4, StoreRow(row), e5);
    OneEvent(cfg, s3, Tick(12000), e4);
    OneEvent(cfg, s2, Advance, e3);
    OneEvent(cfg, s1, Send, e2);
    OneEvent(cfg, s, Tick(6000), e1);
    NoEvent(cfg, s8);
    StillDelivered(s7, s8, 0, 0);
  }

  lemma SixEvents(cfg: Config, t: Tables, row: Row) returns (s1: State, s2: State, s3: State, s4: State, s5: State,
                                                             s6: State)
    requires KnownText(t, row) && row.seconds == 12
    ensures Apply(cfg, Init(cfg, t, 0), Tick(6000)) == Some(s1)
    ensures Apply(cfg, s1, Send) == Some(s2) && Apply(cfg, s2, Advance) == Some(s3)
        && Apply(cfg, s3, Tick(12000)) == Some(s4)
    ensures Apply(cfg, s4, StoreRow(row)) == Some(s5) && Apply(cfg, s5, Send) == Some(s6)
    ensures s6.server == Chatting(cfg.user, cfg.key) && s6.inFlight == [0, 6000] && s6.polls == []
    ensures s6.tables == t.(transactions := t.transactions + [row])
  {
    hide KnownText;
    s1 := Apply(cfg, Init(cfg, t, 0), Tick(6000)).value;
    s2 := Apply(cfg, s1, Send).value;
    s3 := Apply(cfg, s2, Advance).value;
    s4 := Apply(cfg, s3, Tick(12000)).value;
    s5 := Apply(cfg, s4, StoreRow(row)).value;
    s6 := Apply(cfg, s5, Send).value;
  }

  lemma NoEvent(cfg: Config, s: State)
    ensures Run(cfg, s, [], false) == Some(s)
  {
  }

  lemma StillDelivered(s: State, s': State, k: nat, j: nat)
    requires Delivered(s, k, j) && s.polls <= s'.polls
    ensures Delivered(s', k, j)
  {
  }

  /** The answer to a poll where the only row is the user's own, with an empty text. */
  lemma AnswersOne(cfg: Config, s: State, row: Row, results: Results, stale: Memory) returns (s': State)
    requires ValidUsername(cfg.user) && s.server == Chatting(cfg.user, cfg.key) && stale(0) >= 0
    requires s.tables == Tables([User(cfg.user, [])], [[]], [row]) && row == Row(Some(0), Some(0), Some(0), 12)
    requires s.inFlight != [] && s.inFlight[0] < 12000
    ensures Apply(cfg, s, Query(results, stale)) == Some(s')
    ensures s'.server == s.server && s'.tables == s.tables && s'.inFlight == s.inFlight[1..]
    ensures s'.clock == s.clock && s'.last == s.last && s'.due == s.due
    ensures |s'.polls| == |s.polls| + 1 && s.polls <= s'.polls && Delivered(s', 0, |s.polls|)
  {
    hide ValidUsername, IsResult, Replies, Truncated;
    ResultIsOne(s.tables, row, cfg.user, s.inFlight[0], results);
    RepliesOne(cfg, s.tables, row, s.inFlight[0], stale);
    s' := Apply(cfg, s, Query(results, stale)).value;
    assert s'.polls[|s.polls|].hits[0] == 0;
  }

  lemma ResultIsOne(t: Tables, row: Row, user: bytes, time: Millis, results: Results)
    requires t == Tables([User(user, [])], [[]], [row]) && row == Row(Some(0), Some(0), Some(0), 12) && time < 12000
    ensures results(t, Truncated(time, 1000), user) == [0]
  {
    var hits := results(t, Truncated(time, 1000), user);
    assert IsResult(t, Truncated(time, 1000), user, hits);
    assert Joins(t, row, user) && Truncated(time, 1000) < 12;
    assert 0 in hits;
    forall i | 0 <= i < |hits|
      ensures hits[i] == 0
    {
      assert hits[i] in hits;
    }
    var last := |hits| - 1;
    assert hits[last] == hits[0];
  }

  lemma RepliesOne(cfg: Config, t: Tables, row: Row, time: Millis, stale: Memory)
    requires ValidUsername(cfg.user) && stale(0) >= 0
    requires t == Tables([User(cfg.user, [])], [[]], [row]) && row == Row(Some(0), Some(0), Some(0), 12)
    ensures Selected(t, [0], cfg.user)
    ensures var r := Replies(cfg.crypto, cfg.key, t, [0], 0, cfg.user, time, stale);
            |r.0| == 1 && r.1
  {
    hide ValidUsername;
    assert Joins(t, row, cfg.user);
    assert Reply(cfg.crypto, cfg.key, t, 0, cfg.user, time, stale(0)).Some?;
    assert Replies(cfg.crypto, cfg.key, t, [0], 1, cfg.user, time, stale) == ([], true);
  }
}
