/**
 Client and server joined by two first-in-first-out channels: one login attempt, from the user's click to polling.
 What the client sends is a stream of bytes, which the server decodes; what the server sends are messages the client
 takes whole. Other threads of the server may change the tables at any time, except the users.
 */
module Handshake {
  import opened Wrappers
  import opened Bytes
  import opened Messages
  import opened Hashing
  import opened Database
  import opened Server
  import opened Client
  import opened JavaCodec
  import opened Decoder
  import opened Pem
  import opened ClientText
  import J = JavaDecoder
  import C = Cbc

  datatype Config = Config(crypto: Crypto, keys: ClientKeys, username: string, typed: bytes, users: seq<User>)

  /**
   Library laws: 32-byte digests, one hash function on both sides, key pairs exist, and the client can use each
   server key. The client's key text is laid out as its own code does it.
   */
  ghost predicate Valid(cfg: Config) {
    && IsDigest(cfg.crypto.sha) && cfg.keys.sha == cfg.crypto.sha
    && |cfg.keys.symmetricKey| == KEYSIZE
    && (exists privateKey :: PemLayout(cfg.crypto.publicPem(privateKey)))
    && (forall privateKey :: PemLayout(cfg.crypto.publicPem(privateKey)) ==> Usable(cfg, privateKey))
    && IsKeyText(cfg.keys.publicPem)
  }

  /** Wrapping with a 1024-bit key gives 128 bytes, and unwrapping inverts it. */
  ghost predicate Usable(cfg: Config, privateKey: bytes) {
    var text := FromAscii(cfg.crypto.publicPem(privateKey));
    var wrapped := cfg.keys.wrap(text, cfg.keys.symmetricKey);
    && cfg.keys.isKey(text)
    && wrapped.Some? && |wrapped.value| == ENCRYPTED_SYM_LENGTH
    && cfg.crypto.unwrap(privateKey, wrapped.value) == Some(cfg.keys.symmetricKey)
  }

  ghost predicate IsKeyText(pem: bytes) {
    |pem| <= INT_MAX
    && exists body: string, wrapped: string :: IsWrapped(body, wrapped) && '-' !in body
        && pem == Ascii(KeyText(wrapped))
  }

  predicate PatternChar(c: char) {
    'a' <= c <= 'z' || 'A' <= c <= 'Z' || '0' <= c <= '9' || c == '.' || c == '@' || c == '_' || c == '-'
  }

  /** The pattern of the login window. */
  predicate Pattern(username: string) {
    forall i :: 0 <= i < |username| ==> PatternChar(username[i])
  }

  /** A login is sent for these names and no others. */
  predicate NameFits(cfg: Config) {
    0 < |cfg.username| <= MAX_UNAME_LEN && Pattern(cfg.username)
  }

  /** The window's pattern is the server's check. */
  lemma PatternIsValid(username: string)
    ensures Pattern(username) <==> ValidUsername(Ascii(username))
  {
    if !Pattern(username) {
      var i :| 0 <= i < |username| && !PatternChar(username[i]);
      assert !UsernameChar(Ascii(username)[i]);
    }
  }

  /** What the client answered to. */
  datatype Asked = Asked(challenge: bytes, nonce: int64)

  datatype Sys = Sys(
    started: bool,
    client: ClientState,
    server: State,
    tables: Tables,
    toServer: bytes,
    toClient: seq<Message>,
    // history: login messages sent, steps of the login taken, the challenge answered, whether the server took the
    // answer, and whether texts were sent before the symmetric key, and their bytes
    sent: nat,
    moves: nat,
    asked: Option<Asked>,
    verdict: Option<bool>,
    early: bool,
    behind: bytes,
    drawn: Option<bytes>)  // the challenge drawn for the session

  datatype Event =
    | UserLogsIn
    | ClientReads(nonce: int64, readable: bool)
    | ServerReads(challenge: bytes, privateKey: bytes, stale: Memory, results: Results, replyStale: Memory)
    | PollerFires(time: int64)
    | UserSends(m: Message)
    | ServerExpires
    | OthersStore(tables: Tables)

  function Name(cfg: Config): bytes {
    Ascii(cfg.username)
  }

  function Init(cfg: Config, t: Tables): Sys {
    Sys(false, ClientState(cfg.username, cfg.typed, false, false, 0, false), AwaitLogin, t, [], [], 0, 0, None, None,
        false, [], None)
  }

  /** The server decodes what has come in and takes a step; an exception closes the session. */
  function ServerTurn(cfg: Config, s: Sys, challenge: bytes, privateKey: bytes, stale: Memory, results: Results,
                      replyStale: Memory): Sys
    requires !Blocked(s.toServer) && (InLogin(s.server) || s.server.Chatting?)
  {
    var d := DecodeFrame(s.toServer, false, stale);
    var s1 := s.(toServer := s.toServer[d.1..], moves := s.moves + if InLogin(s.server) then 1 else 0,
                 drawn := if s.server.AwaitLogin? then Some(challenge) else s.drawn);
    if d.0.Err? then s1.(server := if d.0.error.Undefined? then Lost else Closed)
    else if InLogin(s.server) then
      var (next, out) := LoginStep(cfg.crypto, s.tables.users, s.server, d.0.value, challenge, privateKey);
      s1.(server := next, toClient := s.toClient + out, sent := s.sent + |out|,
          verdict := if s.server.AwaitResponse? then Some(next.AwaitKeyRequest?) else s.verdict)
    else
      var r := ChatStep(cfg.crypto, s.server, s.tables, d.0.value, results, replyStale);
      s1.(server := r.state, tables := r.tables, toClient := s.toClient + r.replies)
  }

  function ClientTurn(cfg: Config, s: Sys, nonce: int64, readable: bool): Sys
    requires s.toClient != [] && !s.client.working
  {
    var (client, out) := Receive(cfg.keys, s.client, s.toClient[0], nonce, readable);
    s.(client := client, toClient := s.toClient[1..], toServer := s.toServer + out,
       sent := s.sent + if out == [] then 0 else 1, moves := s.moves + 1,
       asked := if s.toClient[0].Challenge? && out != [] then Some(Asked(s.toClient[0].challenge, nonce)) else s.asked)
  }

  /** `None`: the event is not possible. The user can send texts once the first acknowledgement has been read. */
  function Apply(cfg: Config, s: Sys, e: Event): Option<Sys> {
    match e
    case UserLogsIn =>
      if s.started then None
      else if !NameFits(cfg) then Some(s.(started := true, moves := s.moves + 1))
      else Some(s.(started := true, toServer := s.toServer + Frame(Login(Name(cfg), NoKey)), sent := s.sent + 1,
                   moves := s.moves + 1))
    case ClientReads(nonce, readable) =>
      if s.toClient == [] || s.client.working then None else Some(ClientTurn(cfg, s, nonce, readable))
    case ServerReads(challenge, privateKey, stale, results, replyStale) =>
      if Blocked(s.toServer) || !(InLogin(s.server) || s.server.Chatting?) then None
      else if |challenge| != CHALLENGE_LENGTH || !PemLayout(cfg.crypto.publicPem(privateKey)) then None
      else Some(ServerTurn(cfg, s, challenge, privateKey, stale, results, replyStale))
    case PollerFires(time) =>
      if s.client.pollers == 0 || time < 0 then None
      else Some(s.(toServer := s.toServer + Frame(Poll(Name(cfg), time))))
    case UserSends(m) =>
      if !s.client.authenticated || !IsText(m) then None
      else if s.client.hasExchangedKeys then Some(s.(toServer := s.toServer + Frame(m)))
      else Some(s.(toServer := s.toServer + Frame(m), early := true, behind := s.behind + Frame(m)))
    case ServerExpires =>
      if s.server.Chatting? then Some(s.(server := Closed)) else None
    case OthersStore(tables) =>
      if tables.users == s.tables.users then Some(s.(tables := tables)) else None
  }

  function Run(cfg: Config, s: Sys, events: seq<Event>): Option<Sys>
    decreases |events|
  {
    if events == [] then Some(s)
    else
      var next := Apply(cfg, s, events[0]);
      if next.None? then None else Run(cfg, next.value, events[1..])
  }

  /** Events that take the login along, in this state. */
  predicate Moves(s: Sys, e: Event) {
    e.UserLogsIn? || e.ClientReads? || (e.ServerReads? && InLogin(s.server))
  }

  /** Polling has begun, or nothing that could take the login along is possible any more. */
  ghost predicate Settled(cfg: Config, s: Sys) {
    s.client.pollers > 0 || forall e: Event :: Moves(s, e) ==> Apply(cfg, s, e).None?
  }

  // ---------- The phases ----------

  function Zeroed(cfg: Config): bytes {
    seq(|cfg.typed|, _ => '0' as int)
  }

  function ClientAt(cfg: Config, phase: nat): ClientState {
    ClientState(cfg.username, if phase < 3 then cfg.typed else Zeroed(cfg), phase >= 5, phase >= 7,
                if phase >= 9 then 1 else 0, false)
  }

  predicate ServerChats(cfg: Config, s: State) {
    s == Chatting(Name(cfg), cfg.keys.symmetricKey) || s.Closed? || s.Lost?
  }

  function Answer(cfg: Config, a: Asked): Message {
    Response(Name(cfg), Ascii(ClientHash(cfg.crypto.sha, a.challenge, a.nonce, cfg.typed)), BigEndian(a.nonce, 8))
  }

  /** The hash of the answer is the one of the stored password. */
  ghost predicate Accepts(cfg: Config, a: Asked) {
    && Password(cfg.users, Name(cfg)) != []
    && ClientHash(cfg.crypto.sha, a.challenge, a.nonce, cfg.typed)
       == ServerHash(cfg.crypto.sha, a.challenge, BigEndian(a.nonce, 8), Password(cfg.users, Name(cfg)))
  }

  /** The login with the client's key, and the one with the symmetric key wrapped for a private key of the server. */
  function PublicLogin(cfg: Config): bytes {
    LoginBytes(cfg.username, PublicKey(cfg.keys.publicPem))
  }

  function ServerKey(cfg: Config, privateKey: bytes): Message {
    Login([], PublicKey(cfg.crypto.publicPem(privateKey)))
  }

  function WrappedLogin(cfg: Config, privateKey: bytes): Message {
    var w := cfg.keys.wrap(FromAscii(cfg.crypto.publicPem(privateKey)), cfg.keys.symmetricKey);
    Login(Name(cfg), WrappedKey(if w.Some? then w.value else []))
  }

  ghost predicate Texts(b: bytes) {
    exists ms :: AreTexts(ms) && b == Frames(ms)
  }

  /** A text that cannot be taken for a login, and whatever follows it. */
  ghost predicate TextAhead(b: bytes) {
    exists m, tail :: IsText(m) && b == Frame(m) + tail
  }

  // Where a login that does not get to polling stays.
  const UNSENT := 10       // no message was sent
  const SILENT := 11       // the challenge was not answered
  const REFUSED := 12      // the answer was not taken
  const KEY_REFUSED := 13  // the client's key text was not taken
  const INTERRUPTED := 14  // a text came before the symmetric key
  const COVERED := 15      // a text came behind a key text that is too short

  /** What has been found out on the way to a phase. */
  ghost predicate Known(cfg: Config, s: Sys, n: nat) {
    && s.tables.users == cfg.users
    && s.started == (n > 0)
    && (s.server.AwaitResponse? ==> s.drawn == Some(s.server.challenge))
    && (s.asked.Some? ==> s.drawn == Some(s.asked.value.challenge))
    && (n == UNSENT ==> !NameFits(cfg))
    && (1 <= n <= 9 || n >= SILENT ==> NameFits(cfg))
    && (n < 3 || n == UNSENT || n == SILENT ==> s.asked == None)
    && (n < 4 || n == UNSENT || n == SILENT ==> s.verdict == None)
    && (3 <= n <= 9 || n >= REFUSED ==> cfg.typed != [] && s.asked.Some?)
    && (4 <= n <= 9 || n >= KEY_REFUSED ==> s.verdict == Some(true) && Accepts(cfg, s.asked.value))
    && (n == REFUSED ==> s.verdict == Some(false) && !Accepts(cfg, s.asked.value))
    && (n == SILENT ==> cfg.typed == [])
    && (6 <= n <= 9 ==> |cfg.keys.publicPem| == ASYMMETRIC_LENGTH)
    && (n == KEY_REFUSED ==> |cfg.keys.publicPem| > ASYMMETRIC_LENGTH)
    && (n == INTERRUPTED ==> |cfg.keys.publicPem| >= ASYMMETRIC_LENGTH)
    && (n == COVERED ==> |cfg.keys.publicPem| < ASYMMETRIC_LENGTH)
  }

  /** Client, server, channels and numbers of messages and steps, up to chatting (9). */
  ghost predicate OnTheWay(cfg: Config, s: Sys, n: nat) {
    var u := Name(cfg);
    match n
    case 0 => s.client == ClientAt(cfg, 0) && s.server == AwaitLogin && s.toServer == [] && s.toClient == []
        && s.sent == 0
    case 1 => s.client == ClientAt(cfg, 1) && s.server == AwaitLogin && s.toServer == Frame(Login(u, NoKey))
        && s.toClient == [] && s.sent == 1
    case 2 => s.client == ClientAt(cfg, 2) && s.server.AwaitResponse? && s.server.user == u
              && |s.server.challenge| == CHALLENGE_LENGTH && s.toServer == []
              && s.toClient == [Challenge(s.server.challenge)] && s.sent == 2
    case 3 => s.client == ClientAt(cfg, 3) && s.asked.Some? && s.server == AwaitResponse(u, s.asked.value.challenge)
              && s.toServer == Frame(Answer(cfg, s.asked.value)) && s.toClient == [] && s.sent == 3
    case 4 => s.client == ClientAt(cfg, 4) && s.server == AwaitKeyRequest(u) && s.toServer == []
              && s.toClient == [Ack(PasswordAuth, Party.Server)] && s.sent == 4
    case 5 => s.client == ClientAt(cfg, 5) && s.server == AwaitKeyRequest(u) && s.toServer == PublicLogin(cfg)
        && s.toClient == [] && s.sent == 5
    case 6 => s.client == ClientAt(cfg, 6) && s.server.AwaitWrapped? && s.server.user == u
              && PemLayout(cfg.crypto.publicPem(s.server.privateKey)) && s.toServer == []
              && s.toClient == [ServerKey(cfg, s.server.privateKey)] && s.sent == 6
    case 7 => s.client == ClientAt(cfg, 7) && s.server.AwaitWrapped? && s.server.user == u
              && PemLayout(cfg.crypto.publicPem(s.server.privateKey))
              && (exists ms :: AreTexts(ms) && s.toServer == Frame(WrappedLogin(cfg, s.server.privateKey)) + Frames(ms))
              && s.toClient == [] && s.sent == 7
    case 8 => s.client == ClientAt(cfg, 8) && ServerChats(cfg, s.server) && Texts(s.toServer)
              && s.toClient == [Ack(Success, Party.Server)] && s.sent == 8
    case 9 => s.client.(working := false) == ClientAt(cfg, 9) && ServerChats(cfg, s.server)
              && (forall i :: 0 <= i < |s.toClient| ==> s.toClient[i].PollResponse?) && s.sent == 8
    case _ => false
  }

  ghost predicate Stopped(cfg: Config, s: Sys, n: nat) {
    var u := Name(cfg);
    match n
    case 10 => s.client == ClientAt(cfg, 1) && s.server == AwaitLogin && s.toServer == [] && s.toClient == []
        && s.sent == 0
    case 11 => s.client == ClientAt(cfg, 2) && s.server.AwaitResponse? && s.toServer == [] && s.toClient == []
        && s.sent == 2
    case 12 => s.client == ClientAt(cfg, 3) && s.server.Closed? && s.toServer == []
               && (s.toClient == [] || s.toClient == [Ack(DefaultError, Party.Server)]) && s.sent <= 4
    case 13 => s.client == ClientAt(cfg, 5) && s.server.Closed? && s.toClient == [] && s.sent == 5
    case 14 =>
      && s.client.(hasExchangedKeys := false) == ClientAt(cfg, 5) && s.sent <= 7
      && (match s.server
         case AwaitKeyRequest(user) =>
           && user == u && s.toClient == [] && s.sent == 5
           && (exists m, tail :: IsText(m) && s.toServer == PublicLogin(cfg) + (Frame(m) + tail))
         case AwaitWrapped(_, privateKey) =>
           && TextAhead(s.toServer) && s.sent == (if s.toClient == [] then 7 else 6)
           && (s.toClient == [] || s.toClient == [ServerKey(cfg, privateKey)])
           && PemLayout(cfg.crypto.publicPem(privateKey))
         case Closed =>
           || (s.toClient == [])
           || (s.sent == 6
               && exists privateKey ::
                    PemLayout(cfg.crypto.publicPem(privateKey)) && s.toClient == [ServerKey(cfg, privateKey)])
         case _ => false)
    case 15 =>
      && s.client == ClientAt(cfg, 5) && s.toClient == [] && s.sent == 5 && Texts(s.behind)
      && if s.server.AwaitKeyRequest? then s.server.user == u && s.toServer == PublicLogin(cfg) + s.behind
         else s.server.Closed? && |cfg.keys.publicPem + s.behind| >= ASYMMETRIC_LENGTH
    case _ => false
  }

  /** The joint state is in phase `n`: up to chatting, the number of steps taken, with the one message under way. */
  ghost predicate Phase(cfg: Config, s: Sys, n: nat) {
    && Known(cfg, s, n)
    && (if n <= 9 then OnTheWay(cfg, s, n) else Stopped(cfg, s, n))
    && (if n <= 8 then s.moves == n else if n == 9 then s.moves >= 9 else true)
    && (n >= INTERRUPTED ==> s.early)
    && (!s.early ==> s.behind == [])
    && (n < INTERRUPTED && n != KEY_REFUSED ==> !s.early)
  }

  // ---------- What the server decodes of the client's bytes ----------

  lemma RecordError(b: bytes, pos: nat, stale: int64)
    ensures DecodeRecord(b, pos, stale).Err? ==> !DecodeRecord(b, pos, stale).error.Undefined?
  {
    hide ReadInt32, ReadInt64, ValidUsername;
  }

  lemma {:induction false} RecordErrors(b: bytes, pos: nat, count: int, k: nat, stale: Memory)
    ensures DecodeRecords(b, pos, count, k, stale).Err? ==> !DecodeRecords(b, pos, count, k, stale).error.Undefined?
    decreases count
  {
    hide DecodeRecord;
    if count > 0 {
      RecordError(b, pos, stale(k));
      if DecodeRecord(b, pos, stale(k)).Ok? {
        RecordErrors(b, DecodeRecord(b, pos, stale(k)).value.1, count - 1, k + 1, stale);
      }
    }
  }

  /** A text is decoded to a text or refused by a setter. */
  lemma TextIsDecoded(m: Message, stale: Memory)
    requires IsText(m)
    ensures var d := DecodePayload(TypeByte(m), Payload(m), stale);
            if d.Ok? then d.value.PollResponse? else !d.error.Undefined?
  {
    hide ReadInt32, ValidUsername, Payload, DecodeRecords;
    var b := Payload(m);
    if DecodeListHeader(b).Ok? {
      var h := DecodeListHeader(b).value;
      RecordErrors(b, h.4, h.3, 0, stale);
    }
  }

  lemma NameIsShort(cfg: Config)
    requires NameFits(cfg)
    ensures ValidUsername(Name(cfg)) && |Name(cfg)| <= MAX_UNAME_LEN
  {
    PatternIsValid(cfg.username);
  }

  /** A login frame in front of the stream is taken as it was sent. */
  lemma LoginIsTaken(cfg: Config, key: Key, tail: bytes, stale: Memory)
    requires NameFits(cfg) && FineKey(key)
    ensures var f := Frame(Login(Name(cfg), key));
            && !Blocked(f + tail)
            && DecodeFrame(f + tail, false, stale) == (Ok(Login(Name(cfg), key)), |f|)
            && (f + tail)[|f|..] == tail
  {
    hide Blocked, DecodeFrame, DecodePayload, Frame, ValidUsername, PemLayout, BigEndian;
    var m := Login(Name(cfg), key);
    NameIsShort(cfg);
    assert |Payload(m)| <= INT_MAX by {
      KeySize(key);
    }
    FrameIsTaken(m, tail, false, stale);
    RoundTrip(m, stale);
  }

  lemma KeySize(key: Key)
    requires FineKey(key)
    ensures |KeyBytes(key)| == KeyLength(key) <= ASYMMETRIC_LENGTH
  {
  }

  lemma AnswerIsTaken(cfg: Config, a: Asked, stale: Memory)
    requires NameFits(cfg) && IsDigest(cfg.crypto.sha)
    ensures var f := Frame(Answer(cfg, a));
            && !Blocked(f) && DecodeFrame(f, false, stale) == (Ok(Answer(cfg, a)), |f|) && f[|f|..] == []
  {
    hide Blocked, DecodeFrame, DecodePayload, Frame, ValidUsername, BigEndian, Format;
    var m := Answer(cfg, a);
    NameIsShort(cfg);
    HexAgreement(cfg.crypto.sha(a.challenge + BigEndian(a.nonce, 8) + cfg.typed));
    assert |Payload(m)| <= INT_MAX;
    FrameIsTaken(m, [], false, stale);
    RoundTrip(m, stale);
    assert Frame(m) + [] == Frame(m);
  }

  /** Key texts of clients have the layout exactly if they have its length. */
  lemma KeyTextFits(pem: bytes)
    requires IsKeyText(pem)
    ensures PemLayout(pem) <==> |pem| == ASYMMETRIC_LENGTH
    ensures |pem| > ASYMMETRIC_LENGTH ==> !PemLayout(pem[..ASYMMETRIC_LENGTH])
  {
    hide PemLayout, IsWrapped;
    var body: string, wrapped: string :| IsWrapped(body, wrapped) && '-' !in body && pem == Ascii(KeyText(wrapped));
    LayoutAccepted(body, wrapped);
    if |pem| > ASYMMETRIC_LENGTH {
      LongerTextRefused(body, wrapped);
    }
  }

  /** The login with the client's key: taken whole, refused, or waited for, as the length of the key text is. */
  lemma PublicLoginIsTaken(cfg: Config, tail: bytes, stale: Memory)
    requires NameFits(cfg) && IsKeyText(cfg.keys.publicPem)
    ensures |cfg.keys.publicPem| == ASYMMETRIC_LENGTH ==>
              var f := PublicLogin(cfg);
              && f == Frame(Login(Name(cfg), PublicKey(cfg.keys.publicPem)))
              && !Blocked(f + tail)
              && DecodeFrame(f + tail, false, stale) == (Ok(Login(Name(cfg), PublicKey(cfg.keys.publicPem))), |f|)
              && (f + tail)[|f|..] == tail
    ensures |cfg.keys.publicPem| > ASYMMETRIC_LENGTH ==>
              && !Blocked(PublicLogin(cfg) + tail)
              && DecodeFrame(PublicLogin(cfg) + tail, false, stale).0 == Err(AsymmetricKey)
    ensures |cfg.keys.publicPem| < ASYMMETRIC_LENGTH ==> Blocked(PublicLogin(cfg))
  {
    hide PemLayout, BigEndian, Blocked, DecodeFrame, IsKeyText, ValidUsername;
    var pem := cfg.keys.publicPem;
    assert |pem| <= INT_MAX && (PemLayout(pem) <==> |pem| == ASYMMETRIC_LENGTH)
        && (|pem| > ASYMMETRIC_LENGTH ==> !PemLayout(pem[..ASYMMETRIC_LENGTH])) by {
      KeyTextFits(pem);
      KeyTextIsArray(pem);
    }
    if |pem| == ASYMMETRIC_LENGTH {
      LoginIsFrame(cfg.username, PublicKey(pem));
      LoginIsTaken(cfg, PublicKey(pem), tail, stale);
    } else if |pem| > ASYMMETRIC_LENGTH {
      LongKey(cfg, pem[..ASYMMETRIC_LENGTH], pem[ASYMMETRIC_LENGTH..] + tail, stale);
      FirstPart(cfg, tail);
    } else {
      ShortKey(cfg, []);
      assert PublicLogin(cfg) + [] == PublicLogin(cfg);
    }
  }

  lemma KeyTextIsArray(pem: bytes)
    requires IsKeyText(pem)
    ensures |pem| <= INT_MAX
  {
  }

  lemma FirstPart(cfg: Config, tail: bytes)
    requires |cfg.keys.publicPem| > ASYMMETRIC_LENGTH
    ensures var pem := cfg.keys.publicPem;
            PublicLogin(cfg) + tail
            == Frame(Login(Name(cfg), PublicKey(pem[..ASYMMETRIC_LENGTH]))) + (pem[ASYMMETRIC_LENGTH..] + tail)
  {
    hide BigEndian, FrameHeader;
    var pem := cfg.keys.publicPem;
    var front := pem[..ASYMMETRIC_LENGTH];
    assert pem == front + pem[ASYMMETRIC_LENGTH..];
    var m := Login(Name(cfg), PublicKey(front));
    assert |Payload(m)| == 4 + |cfg.username| + 1 + ASYMMETRIC_LENGTH;
    var head := FrameHeader(0, |Payload(m)|) + (StringBytes(Name(cfg)) + [1]);
    assert PublicLogin(cfg) == head + pem;
    assert Frame(m) == head + front;
  }

  lemma LongKey(cfg: Config, front: bytes, tail: bytes, stale: Memory)
    requires NameFits(cfg) && |front| == ASYMMETRIC_LENGTH && !PemLayout(front)
    ensures var f := Frame(Login(Name(cfg), PublicKey(front)));
            !Blocked(f + tail) && DecodeFrame(f + tail, false, stale).0 == Err(AsymmetricKey)
  {
    hide PemLayout, BigEndian, Blocked, DecodeFrame, ValidUsername, Frame, DecodeUsername;
    var m := Login(Name(cfg), PublicKey(front));
    var b, p := Payload(m), 4 + |Name(cfg)|;
    NameIsShort(cfg);
    FrameIsTaken(m, tail, false, stale);
    assert At(b, 0, StringBytes(Name(cfg)));
    UsernameField(b, 0, Name(cfg), p);
    assert b[p] == 1 && b[p + 1..p + 1 + ASYMMETRIC_LENGTH] == front;
  }

  /** A key text that is too short: the server waits, until texts behind it fill its place. */
  lemma ShortKey(cfg: Config, behind: bytes)
    requires NameFits(cfg) && |cfg.keys.publicPem + behind| < ASYMMETRIC_LENGTH
    ensures Blocked(PublicLogin(cfg) + behind)
  {
    hide BigEndian, Ascii, ReadInt64;
    var s := PublicLogin(cfg) + behind;
    var n := 4 + |cfg.username| + 1 + ASYMMETRIC_LENGTH;
    assert s[..HEADER_LENGTH] == HEADER;
    assert s[LENGTH_POSITION..TOTAL_HEADER_LENGTH] == BigEndian(n, 8);
    Int64Codec(BigEndian(n, 8), n);
  }

  /** The bytes of texts that fill it make no key. */
  lemma FilledKey(cfg: Config, behind: bytes, stale: Memory)
    requires NameFits(cfg) && Texts(behind) && |cfg.keys.publicPem| < ASYMMETRIC_LENGTH <= |cfg.keys.publicPem + behind|
    ensures !Blocked(PublicLogin(cfg) + behind)
    ensures DecodeFrame(PublicLogin(cfg) + behind, false, stale).0 == Err(AsymmetricKey)
  {
    hide PemLayout, Blocked, DecodeFrame, NameFits, Frame, PublicLogin, Ascii, AreTexts;
    var whole := cfg.keys.publicPem + behind;
    var front, rest := whole[..ASYMMETRIC_LENGTH], whole[ASYMMETRIC_LENGTH..];
    var ms :| AreTexts(ms) && behind == Frames(ms);
    TextsFillNoKey(cfg.keys.publicPem, ms);
    FilledIsFrame(cfg, behind);
    LongKey(cfg, front, rest, stale);
  }

  lemma FilledIsFrame(cfg: Config, behind: bytes)
    requires |cfg.keys.publicPem| < ASYMMETRIC_LENGTH <= |cfg.keys.publicPem + behind|
    ensures var whole := cfg.keys.publicPem + behind;
            PublicLogin(cfg) + behind
            == Frame(Login(Name(cfg), PublicKey(whole[..ASYMMETRIC_LENGTH]))) + whole[ASYMMETRIC_LENGTH..]
  {
    hide BigEndian, FrameHeader, Ascii;
    var whole := cfg.keys.publicPem + behind;
    var front := whole[..ASYMMETRIC_LENGTH];
    var m := Login(Name(cfg), PublicKey(front));
    var head := FrameHeader(0, |Payload(m)|) + (StringBytes(Name(cfg)) + [1]);
    assert |Payload(m)| == 4 + |cfg.username| + 1 + ASYMMETRIC_LENGTH;
    assert PublicLogin(cfg) == head + cfg.keys.publicPem;
    assert PublicLogin(cfg) + behind == head + whole;
    assert Frame(m) == head + front;
    assert head + whole == head + front + whole[ASYMMETRIC_LENGTH..];
  }

  // ---------- Steps ----------

  lemma {:induction false} RepliesAreLists(c: Crypto, key: bytes, t: Tables, hits: seq<nat>, k: nat, user: bytes,
                                           time: int64, stale: Memory)
    requires k <= |hits| && Selected(t, hits, user)
    ensures forall m :: m in Replies(c, key, t, hits, k, user, time, stale).0 ==> m.PollResponse?
    decreases |hits| - k
  {
    if k < |hits| {
      RepliesAreLists(c, key, t, hits, k + 1, user, time, stale);
    }
  }

  /** In the chat loop the key and the user stay, and only lists go to the client; a text has no reply. */
  lemma ChatKeepsKey(c: Crypto, s: State, t: Tables, m: Message, results: Results, stale: Memory)
    requires s.Chatting?
    ensures var r := ChatStep(c, s, t, m, results, stale);
            && (r.state == s || r.state.Closed? || r.state.Lost?)
            && r.tables.users == t.users
            && (forall reply :: reply in r.replies ==> reply.PollResponse?)
            && (m.PollResponse? ==> r.replies == [])
  {
    if m.Poll? && m.user == s.user && m.time >= 0 {
      var hits := results(t, Truncated(m.time, 1000), m.user);
      ResultIsSelected(t, hits, Truncated(m.time, 1000), m.user);
      RepliesAreLists(c, s.key, t, hits, 0, m.user, m.time, stale);
    }
  }

  /** The server takes the client's answer if and only if there is a password and the two hashes are equal. */
  lemma AnswerTaken(cfg: Config, a: Asked, privateKey: bytes, fresh_: bytes)
    requires Valid(cfg)
    ensures var u := Name(cfg);
            var (next, out) := LoginStep(cfg.crypto, cfg.users, AwaitResponse(u, a.challenge), Answer(cfg, a), fresh_,
                                         privateKey);
            if Accepts(cfg, a) then next == AwaitKeyRequest(u) && out == [Ack(PasswordAuth, Party.Server)]
            else next == Closed && (out == [] || out == [Ack(DefaultError, Party.Server)])
  {
    hide Password, ClientHash, ServerHash, Usable, PemLayout, IsKeyText;
    HashBytesAgree(cfg.crypto.sha, a.challenge, a.nonce, cfg.typed, Password(cfg.users, Name(cfg)));
  }

  lemma ServerReadsLogin(cfg: Config, s: Sys, e: Event)
    requires Valid(cfg) && Phase(cfg, s, 1) && e.ServerReads? && Apply(cfg, s, e).Some?
    ensures Phase(cfg, Apply(cfg, s, e).value, 2)
  {
    hide Frame, DecodeFrame, Blocked, ChatStep, PemLayout, Valid, Ascii, NameFits, Accepts, Zeroed, Password,
      HashMatches;
    LoginIsTaken(cfg, NoKey, [], e.stale);
    assert s.toServer + [] == s.toServer;
  }

  lemma ServerReadsAnswer(cfg: Config, s: Sys, e: Event) returns (n': nat)
    requires Valid(cfg) && Phase(cfg, s, 3) && e.ServerReads? && Apply(cfg, s, e).Some?
    ensures Phase(cfg, Apply(cfg, s, e).value, n') && n' == if Accepts(cfg, s.asked.value) then 4 else REFUSED
  {
    hide Frame, DecodeFrame, Blocked, ChatStep, LoginStep, PemLayout, Usable, IsKeyText, Ascii, NameFits, Accepts,
      Zeroed, Password, Answer;
    AnswerIsTaken(cfg, s.asked.value, e.stale);
    AnswerIsResponse(cfg, s.asked.value);
    AnswerTaken(cfg, s.asked.value, e.privateKey, e.challenge);
    n' := if Accepts(cfg, s.asked.value) then 4 else REFUSED;
  }

  lemma AnswerIsResponse(cfg: Config, a: Asked)
    ensures Answer(cfg, a).Response?
  {
  }

  lemma ServerReadsKey(cfg: Config, s: Sys, e: Event) returns (n': nat)
    requires Valid(cfg) && Phase(cfg, s, 5) && e.ServerReads? && Apply(cfg, s, e).Some?
    ensures Phase(cfg, Apply(cfg, s, e).value, n')
    ensures n' == if |cfg.keys.publicPem| == ASYMMETRIC_LENGTH then 6 else KEY_REFUSED
  {
    hide Frame, DecodeFrame, Blocked, ChatStep, PemLayout, Usable, IsKeyText, Ascii, NameFits, Accepts, Zeroed,
      Password, PublicLogin, HashMatches;
    PublicLoginIsTaken(cfg, [], e.stale);
    assert s.toServer + [] == s.toServer;
    n' := if |cfg.keys.publicPem| == ASYMMETRIC_LENGTH then 6 else KEY_REFUSED;
  }

  lemma WrappedFits(cfg: Config, privateKey: bytes)
    requires Valid(cfg) && PemLayout(cfg.crypto.publicPem(privateKey))
    ensures var m := WrappedLogin(cfg, privateKey);
            && m.Login? && m.key.WrappedKey? && |m.key.wrapped| == ENCRYPTED_SYM_LENGTH && m.user == Name(cfg)
            && cfg.crypto.unwrap(privateKey, m.key.wrapped) == Some(cfg.keys.symmetricKey)
            && |cfg.keys.symmetricKey| == KEYSIZE
  {
    hide PemLayout, IsKeyText, FromAscii, Ascii;
    assert Usable(cfg, privateKey);
  }

  lemma ServerReadsWrapped(cfg: Config, s: Sys, e: Event)
    requires Valid(cfg) && Phase(cfg, s, 7) && e.ServerReads? && Apply(cfg, s, e).Some?
    ensures Phase(cfg, Apply(cfg, s, e).value, 8)
  {
    hide Frame, Frames, DecodeFrame, Blocked, ChatStep, PemLayout, Valid, Ascii, NameFits, Accepts, Zeroed, Password,
      WrappedLogin, HashMatches, AreTexts;
    var ms :| AreTexts(ms) && s.toServer == Frame(WrappedLogin(cfg, s.server.privateKey)) + Frames(ms);
    var m := WrappedLogin(cfg, s.server.privateKey);
    WrappedFits(cfg, s.server.privateKey);
    assert m == Login(Name(cfg), m.key);
    LoginIsTaken(cfg, m.key, Frames(ms), e.stale);
  }

  /** A text in front of the stream is taken whole; it is decoded to a text or refused. */
  lemma TextIsTaken(m: Message, tail: bytes, stale: Memory)
    requires IsText(m)
    ensures var d := DecodeFrame(Frame(m) + tail, false, stale);
            && !Blocked(Frame(m) + tail)
            && (if d.0.Ok? then d.0.value.PollResponse? else !d.0.error.Undefined?)
            && (Frame(m) + tail)[d.1..] == tail
  {
    hide Frame, DecodeFrame, Blocked, DecodePayload;
    FrameIsTaken(m, tail, false, stale);
    TextIsDecoded(m, stale);
  }

  /** The texts of a stream, one by one. */
  lemma FirstText(b: bytes, stale: Memory)
    requires Texts(b) && !Blocked(b)
    ensures |b| >= TOTAL_HEADER_LENGTH
    ensures var d := DecodeFrame(b, false, stale);
            && (if d.0.Ok? then d.0.value.PollResponse? else !d.0.error.Undefined?)
            && Texts(b[d.1..])
  {
    hide Frame, DecodeFrame, IsText;
    var ms :| AreTexts(ms) && b == Frames(ms);
    if ms != [] {
      FramesSplit(ms, []);
      assert Frames(ms) + [] == Frames(ms);
      assert Frames(ms[1..]) + [] == Frames(ms[1..]);
      assert IsText(ms[0]);
      TextIsTaken(ms[0], Frames(ms[1..]), stale);
      assert AreTexts(ms[1..]);
    }
  }

  lemma ServerReadsText(cfg: Config, s: Sys, e: Event)
    requires Valid(cfg) && Phase(cfg, s, 8) && e.ServerReads? && Apply(cfg, s, e).Some?
    ensures Phase(cfg, Apply(cfg, s, e).value, 8)
  {
    hide DecodeFrame, Blocked, ChatStep, LoginStep, PemLayout, Valid, Ascii, NameFits, Accepts, Zeroed, Password, Texts;
    FirstText(s.toServer, e.stale);
    var d := DecodeFrame(s.toServer, false, e.stale);
    if d.0.Ok? {
      ChatKeepsKey(cfg.crypto, s.server, s.tables, d.0.value, e.results, e.replyStale);
    }
  }

  lemma ServerReadsChat(cfg: Config, s: Sys, e: Event)
    requires Valid(cfg) && Phase(cfg, s, 9) && e.ServerReads? && Apply(cfg, s, e).Some?
    ensures Phase(cfg, Apply(cfg, s, e).value, 9)
  {
    hide DecodeFrame, Blocked, ChatStep, LoginStep, PemLayout, Valid, Ascii, NameFits, Accepts, Zeroed, Password;
    var d := DecodeFrame(s.toServer, false, e.stale);
    if d.0.Ok? {
      ChatKeepsKey(cfg.crypto, s.server, s.tables, d.0.value, e.results, e.replyStale);
    }
  }

  lemma ServerReadsInterrupted(cfg: Config, s: Sys, e: Event)
    requires Valid(cfg) && Phase(cfg, s, INTERRUPTED) && e.ServerReads? && Apply(cfg, s, e).Some?
    ensures Phase(cfg, Apply(cfg, s, e).value, INTERRUPTED)
  {
    hide Frame, DecodeFrame, Blocked, ChatStep, PemLayout, Usable, IsKeyText, Ascii, NameFits, Accepts, Zeroed,
      Password, PublicLogin, HashMatches, IsText;
    if s.server.AwaitKeyRequest? {
      var m, tail :| IsText(m) && s.toServer == PublicLogin(cfg) + (Frame(m) + tail);
      PublicLoginIsTaken(cfg, Frame(m) + tail, e.stale);
    } else {
      var m, tail :| IsText(m) && s.toServer == Frame(m) + tail;
      TextIsTaken(m, tail, e.stale);
    }
  }

  lemma ServerReadsCovered(cfg: Config, s: Sys, e: Event)
    requires Valid(cfg) && Phase(cfg, s, COVERED) && e.ServerReads? && Apply(cfg, s, e).Some?
    ensures Phase(cfg, Apply(cfg, s, e).value, COVERED)
  {
    hide Frame, DecodeFrame, Blocked, ChatStep, PemLayout, Usable, IsKeyText, Ascii, NameFits, Accepts, Zeroed,
      Password, PublicLogin, HashMatches, Texts;
    if |cfg.keys.publicPem + s.behind| < ASYMMETRIC_LENGTH {
      ShortKey(cfg, s.behind);
    } else {
      FilledKey(cfg, s.behind, e.stale);
    }
  }

  lemma ServerStep(cfg: Config, s: Sys, e: Event, n: nat) returns (n': nat)
    requires Valid(cfg) && n <= COVERED && Phase(cfg, s, n) && e.ServerReads? && Apply(cfg, s, e).Some?
    ensures Phase(cfg, Apply(cfg, s, e).value, n') && n' <= COVERED
  {
    hide ServerTurn, Blocked, PemLayout, Valid, Known, Frame, PublicLogin, Answer, Texts, AreTexts, TextAhead, IsText;
    n' := n;
    if n == 1 {
      ServerReadsLogin(cfg, s, e);
      n' := 2;
    } else if n == 3 {
      n' := ServerReadsAnswer(cfg, s, e);
    } else if n == 5 {
      n' := ServerReadsKey(cfg, s, e);
    } else if n == 7 {
      ServerReadsWrapped(cfg, s, e);
      n' := 8;
    } else if n == 8 {
      ServerReadsText(cfg, s, e);
    } else if n == 9 {
      ServerReadsChat(cfg, s, e);
    } else if n == INTERRUPTED {
      ServerReadsInterrupted(cfg, s, e);
    } else if n == COVERED {
      ServerReadsCovered(cfg, s, e);
    } else {
      NothingToRead();
      assert false;
    }
  }

  lemma NothingToRead()
    ensures Blocked([])
  {
  }

  lemma FrameIsSome(m: Message)
    ensures Frame(m) != []
  {
    hide Payload, BigEndian;
  }

  lemma ClientReadsChallenge(cfg: Config, s: Sys, e: Event) returns (n': nat)
    requires Valid(cfg) && Phase(cfg, s, 2) && e.ClientReads? && Apply(cfg, s, e).Some?
    ensures Phase(cfg, Apply(cfg, s, e).value, n') && n' == if cfg.typed == [] then SILENT else 3
  {
    hide Frame, PemLayout, Usable, IsKeyText, Ascii, Pattern, Accepts, Password, ClientHash, BigEndian;
    n' := if cfg.typed == [] then SILENT else 3;
    FrameIsSome(Answer(cfg, Asked(s.server.challenge, e.nonce)));
  }

  lemma ClientReadsAuth(cfg: Config, s: Sys, e: Event)
    requires Valid(cfg) && Phase(cfg, s, 4) && e.ClientReads? && Apply(cfg, s, e).Some?
    ensures Phase(cfg, Apply(cfg, s, e).value, 5)
  {
    hide Frame, PemLayout, Valid, Ascii, Pattern, Accepts, Password, LoginBytes, Zeroed;
    LoginIsSome(cfg.username, PublicKey(cfg.keys.publicPem));
  }

  lemma LoginIsSome(username: string, key: Key)
    ensures LoginBytes(username, key) != []
  {
    hide BigEndian;
  }

  /** What the client makes of the server's key: the symmetric key goes out, wrapped, as one frame. */
  lemma KeyIsAnswered(cfg: Config, c: ClientState, privateKey: bytes, nonce: int64, readable: bool)
    requires Valid(cfg) && NameFits(cfg) && PemLayout(cfg.crypto.publicPem(privateKey))
    requires !c.working && c.username == cfg.username
    ensures Receive(cfg.keys, c, ServerKey(cfg, privateKey), nonce, readable)
         == (c.(hasExchangedKeys := true), Frame(WrappedLogin(cfg, privateKey)))
    ensures Frame(WrappedLogin(cfg, privateKey)) != []
  {
    hide Frame, PemLayout, IsKeyText, Ascii, FromAscii, Pattern, LoginBytes;
    assert Usable(cfg, privateKey);
    WrappedFits(cfg, privateKey);
    LoginIsFrame(cfg.username, WrappedLogin(cfg, privateKey).key);
    FrameIsSome(WrappedLogin(cfg, privateKey));
  }

  lemma ClientReadsKey(cfg: Config, s: Sys, e: Event)
    requires Valid(cfg) && Phase(cfg, s, 6) && e.ClientReads? && Apply(cfg, s, e).Some?
    ensures Phase(cfg, Apply(cfg, s, e).value, 7)
  {
    hide Frame, PemLayout, Valid, Ascii, NameFits, Accepts, Password, Zeroed, Receive, WrappedLogin;
    KeyIsAnswered(cfg, s.client, s.server.privateKey, e.nonce, e.readable);
    var f := Frame(WrappedLogin(cfg, s.server.privateKey));
    assert AreTexts([]) && [] + f == f + Frames([]);
  }

  lemma ClientReadsSuccess(cfg: Config, s: Sys, e: Event)
    requires Valid(cfg) && Phase(cfg, s, 8) && e.ClientReads? && Apply(cfg, s, e).Some?
    ensures Phase(cfg, Apply(cfg, s, e).value, 9)
  {
    hide Frame, PemLayout, Valid, Ascii, NameFits, Accepts, Password, Zeroed, LoginSent, Texts;
  }

  lemma ClientReadsLater(cfg: Config, s: Sys, e: Event, n: nat)
    requires Valid(cfg) && (n == 9 || n == REFUSED) && Phase(cfg, s, n) && e.ClientReads? && Apply(cfg, s, e).Some?
    ensures Phase(cfg, Apply(cfg, s, e).value, n)
  {
    hide Frame, PemLayout, Valid, Ascii, NameFits, Accepts, Password, Zeroed, LoginSent;
  }

  lemma ClientReadsInterrupted(cfg: Config, s: Sys, e: Event)
    requires Valid(cfg) && Phase(cfg, s, INTERRUPTED) && e.ClientReads? && Apply(cfg, s, e).Some?
    ensures Phase(cfg, Apply(cfg, s, e).value, INTERRUPTED)
  {
    hide Frame, PemLayout, Valid, Ascii, NameFits, Accepts, Password, Zeroed, Receive, WrappedLogin, IsText;
    if s.server.Closed? {
      var privateKey :| PemLayout(cfg.crypto.publicPem(privateKey)) && s.toClient == [ServerKey(cfg, privateKey)];
      KeyIsAnswered(cfg, s.client, privateKey, e.nonce, e.readable);
    } else {
      var m, tail :| IsText(m) && s.toServer == Frame(m) + tail;
      KeyIsAnswered(cfg, s.client, s.server.privateKey, e.nonce, e.readable);
      var f := Frame(WrappedLogin(cfg, s.server.privateKey));
      assert Frame(m) + tail + f == Frame(m) + (tail + f);
    }
  }

  lemma ClientStep(cfg: Config, s: Sys, e: Event, n: nat) returns (n': nat)
    requires Valid(cfg) && n <= COVERED && Phase(cfg, s, n) && e.ClientReads? && Apply(cfg, s, e).Some?
    ensures Phase(cfg, Apply(cfg, s, e).value, n') && n' <= COVERED && (n' == 9 ==> n == 8 || n == 9)
  {
    hide ClientTurn, PemLayout, Valid, Known, Frame, PublicLogin, Answer, Texts, AreTexts, TextAhead, IsText;
    n' := n;
    if n == 2 {
      n' := ClientReadsChallenge(cfg, s, e);
    } else if n == 4 {
      ClientReadsAuth(cfg, s, e);
      n' := 5;
    } else if n == 6 {
      ClientReadsKey(cfg, s, e);
      n' := 7;
    } else if n == 8 {
      ClientReadsSuccess(cfg, s, e);
      n' := 9;
    } else if n == 9 || n == REFUSED {
      ClientReadsLater(cfg, s, e, n);
    } else if n == INTERRUPTED {
      ClientReadsInterrupted(cfg, s, e);
    } else {
      assert false;
    }
  }

  lemma MoreTexts(ms: seq<Message>, m: Message)
    requires AreTexts(ms) && IsText(m)
    ensures AreTexts(ms + [m]) && Frames(ms + [m]) == Frames(ms) + Frame(m)
  {
    hide Frame, IsText;
    FramesAppend(ms, m);
  }

  /** A text after the symmetric key does not interrupt the login. */
  lemma UserSendsLate(cfg: Config, s: Sys, e: Event, n: nat)
    requires Valid(cfg) && (n == 7 || n == 8) && Phase(cfg, s, n) && e.UserSends? && Apply(cfg, s, e).Some?
    ensures Phase(cfg, Apply(cfg, s, e).value, n)
  {
    hide PemLayout, Valid, Frame, Frames, PublicLogin, AreTexts, IsText, NameFits, Accepts, Zeroed, WrappedLogin, Ascii;
    var f := Frame(e.m);
    if n == 7 {
      var ms :| AreTexts(ms) && s.toServer == Frame(WrappedLogin(cfg, s.server.privateKey)) + Frames(ms);
      MoreTexts(ms, e.m);
      assert Frame(WrappedLogin(cfg, s.server.privateKey)) + Frames(ms) + f
          == Frame(WrappedLogin(cfg, s.server.privateKey)) + Frames(ms + [e.m]);
    } else {
      var ms :| AreTexts(ms) && s.toServer == Frames(ms);
      MoreTexts(ms, e.m);
    }
  }

  /** One before it does. */
  lemma UserSendsEarly(cfg: Config, s: Sys, e: Event, n: nat) returns (n': nat)
    requires Valid(cfg) && (n == 5 || n == 6) && Phase(cfg, s, n) && e.UserSends? && Apply(cfg, s, e).Some?
    ensures Phase(cfg, Apply(cfg, s, e).value, n') && n' <= COVERED
  {
    hide PemLayout, Valid, Frame, Frames, PublicLogin, IsText, NameFits, Accepts, Zeroed, Ascii;
    var f := Frame(e.m);
    assert f + [] == f && [] + f == f;
    NoTexts();
    MoreTexts([], e.m);
    n' := if n == 5 && |cfg.keys.publicPem| < ASYMMETRIC_LENGTH then COVERED else INTERRUPTED;
  }

  lemma UserSendsBehind(cfg: Config, s: Sys, e: Event)
    requires Valid(cfg) && Phase(cfg, s, COVERED) && e.UserSends? && Apply(cfg, s, e).Some?
    ensures Phase(cfg, Apply(cfg, s, e).value, COVERED)
  {
    hide PemLayout, Valid, Frame, Frames, PublicLogin, AreTexts, IsText, NameFits, Accepts, Zeroed, Ascii;
    var ms :| AreTexts(ms) && s.behind == Frames(ms);
    MoreTexts(ms, e.m);
    assert PublicLogin(cfg) + s.behind + Frame(e.m) == PublicLogin(cfg) + (s.behind + Frame(e.m));
  }

  lemma UserStep(cfg: Config, s: Sys, e: Event, n: nat) returns (n': nat)
    requires Valid(cfg) && n <= COVERED && Phase(cfg, s, n) && e.UserSends? && Apply(cfg, s, e).Some?
    ensures Phase(cfg, Apply(cfg, s, e).value, n') && n' <= COVERED
  {
    hide PemLayout, Valid, Frame, Texts, TextAhead, PublicLogin, AreTexts, IsText, NameFits, Accepts, Zeroed,
      WrappedLogin, Ascii;
    n' := n;
    if n == 5 || n == 6 {
      n' := UserSendsEarly(cfg, s, e, n);
    } else if n == 7 || n == 8 {
      UserSendsLate(cfg, s, e, n);
    } else if n == INTERRUPTED {
      MoreBehindText(cfg, s, Frame(e.m));
    } else if n == COVERED {
      UserSendsBehind(cfg, s, e);
    }
  }

  lemma MoreBehindText(cfg: Config, s: Sys, more: bytes)
    requires Stopped(cfg, s, INTERRUPTED)
    ensures Stopped(cfg, s.(toServer := s.toServer + more), INTERRUPTED)
  {
    hide PemLayout, Frame, PublicLogin, IsText, Zeroed, Ascii;
    if s.server.AwaitKeyRequest? {
      var m, tail :| IsText(m) && s.toServer == PublicLogin(cfg) + (Frame(m) + tail);
      assert PublicLogin(cfg) + (Frame(m) + tail) + more == PublicLogin(cfg) + (Frame(m) + (tail + more));
    } else if s.server.AwaitWrapped? {
      var m, tail :| IsText(m) && s.toServer == Frame(m) + tail;
      assert Frame(m) + tail + more == Frame(m) + (tail + more);
    }
  }

  lemma OtherStep(cfg: Config, s: Sys, e: Event, n: nat) returns (n': nat)
    requires Valid(cfg) && n <= COVERED && Phase(cfg, s, n) && Apply(cfg, s, e).Some?
    requires e.UserLogsIn? || e.PollerFires? || e.ServerExpires? || e.OthersStore?
    ensures Phase(cfg, Apply(cfg, s, e).value, n') && n' <= COVERED
  {
    hide PemLayout, Valid, Frame, PublicLogin, NameFits, Accepts, Zeroed, WrappedLogin, Ascii, Texts, AreTexts, IsText,
      TextAhead;
    n' := if !e.UserLogsIn? then n else if NameFits(cfg) then 1 else UNSENT;
  }

  /**
   Every event leads from one phase of the joint state to the next, to the place where the login stays, or leaves it.
   */
  lemma PhaseStep(cfg: Config, s: Sys, e: Event, n: nat) returns (n': nat)
    requires Valid(cfg) && n <= COVERED && Phase(cfg, s, n) && Apply(cfg, s, e).Some?
    ensures Phase(cfg, Apply(cfg, s, e).value, n') && n' <= COVERED
  {
    hide Valid, Phase, ServerTurn, ClientTurn, PemLayout, NameFits, Frame;
    match e
    case ServerReads(_, _, _, _, _) => n' := ServerStep(cfg, s, e, n);
    case ClientReads(_, _) => n' := ClientStep(cfg, s, e, n);
    case UserSends(_) => n' := UserStep(cfg, s, e, n);
    case UserLogsIn => n' := OtherStep(cfg, s, e, n);
    case PollerFires(_) => n' := OtherStep(cfg, s, e, n);
    case ServerExpires => n' := OtherStep(cfg, s, e, n);
    case OthersStore(_) => n' := OtherStep(cfg, s, e, n);
  }

  // ---------- Whole runs ----------

  lemma {:induction false} RunReaches(cfg: Config, s: Sys, events: seq<Event>, n: nat) returns (n': nat)
    requires Valid(cfg) && n <= COVERED && Phase(cfg, s, n) && Run(cfg, s, events).Some?
    ensures Phase(cfg, Run(cfg, s, events).value, n') && n' <= COVERED
    decreases |events|
  {
    hide Phase, Apply, Valid;
    n' := n;
    if events != [] {
      var mid := PhaseStep(cfg, s, events[0], n);
      n' := RunReaches(cfg, Apply(cfg, s, events[0]).value, events[1..], mid);
    }
  }

  /** Every reachable state is in a phase. */
  lemma EveryRun(cfg: Config, t: Tables, events: seq<Event>) returns (n: nat)
    requires Valid(cfg) && t.users == cfg.users && Run(cfg, Init(cfg, t), events).Some?
    ensures n <= COVERED && Phase(cfg, Run(cfg, Init(cfg, t), events).value, n)
  {
    hide Run, Valid, PemLayout;
    assert Phase(cfg, Init(cfg, t), 0);
    n := RunReaches(cfg, Init(cfg, t), events, 0);
  }

  /**
   Polling has begun, after eight messages; the server chats with the client's key under its name, or has since
   stopped.
   */
  ghost predicate Completed(cfg: Config, s: Sys) {
    && s.client.pollers == 1 && s.client.authenticated && s.client.hasExchangedKeys
    && ServerChats(cfg, s.server) && s.sent == 8
  }

  /** One message of the login on its way to the server, and texts behind a wrapped key only. */
  ghost predicate OneToServer(cfg: Config, s: Sys) {
    exists f: bytes, ms ::
      && s.toServer == f + Frames(ms) && AreTexts(ms)
      && (ms != [] ==> s.client.hasExchangedKeys)
      && (f == [] || f == Frame(Login(Name(cfg), NoKey)) || (s.asked.Some? && f == Frame(Answer(cfg, s.asked.value)))
          || f == PublicLogin(cfg) || (s.server.AwaitWrapped? && f == Frame(WrappedLogin(cfg, s.server.privateKey))))
      && (f != [] ==> s.toClient == [])
  }

  /**
   In every reachable state: the poll thread is started at most once; up to then, unless the user sends a text too
   early, at most one message of the login is under way, and no poll; polls only once the server has left the login;
   and a chatting server holds exactly the client's key under the client's name.
   */
  lemma LoginInvariant(cfg: Config, t: Tables, events: seq<Event>)
    requires Valid(cfg) && t.users == cfg.users && Run(cfg, Init(cfg, t), events).Some?
    ensures var s := Run(cfg, Init(cfg, t), events).value;
            && s.client.pollers <= 1 && s.sent <= 8
            && (s.client.pollers == 0 ==> |s.toClient| <= 1)
            && (s.client.pollers == 0 && !s.early ==> s.server.Closed? || OneToServer(cfg, s))
            && (s.client.pollers == 1 ==> Completed(cfg, s) && !InLogin(s.server))
            && (s.server.Chatting? ==>
                s.server == Chatting(Name(cfg), cfg.keys.symmetricKey)
                && |s.server.key| == KEYSIZE)
  {
    hide Run, Phase, OneToServer, Completed;
    var n := EveryRun(cfg, t, events);
    var s := Run(cfg, Init(cfg, t), events).value;
    if n <= 9 {
      OnTheWayInvariant(cfg, s, n);
    } else {
      StoppedInvariant(cfg, s, n);
    }
  }

  lemma OnTheWayInvariant(cfg: Config, s: Sys, n: nat)
    requires Valid(cfg) && Phase(cfg, s, n) && n <= 9
    ensures s.client.pollers <= 1 && s.sent <= 8 && (s.client.pollers == 0 ==> |s.toClient| <= 1)
    ensures s.client.pollers == 0 ==> s.server.Closed? || OneToServer(cfg, s)
    ensures s.client.pollers == 1 ==> Completed(cfg, s) && !InLogin(s.server)
    ensures s.server.Chatting? ==> s.server == Chatting(Name(cfg), cfg.keys.symmetricKey) && |s.server.key| == KEYSIZE
  {
    hide PemLayout, Known, Frame, PublicLogin, Answer, WrappedLogin, Texts, AreTexts, Ascii, Zeroed, Usable, IsKeyText,
      OneToServer;
    if n < 9 {
      FlightOnTheWay(cfg, s, n);
    }
  }

  lemma StoppedInvariant(cfg: Config, s: Sys, n: nat)
    requires Phase(cfg, s, n) && 9 < n <= COVERED
    ensures s.client.pollers == 0 && s.sent <= 8 && |s.toClient| <= 1 && !s.server.Chatting?
    ensures !s.early ==> s.server.Closed? || OneToServer(cfg, s)
  {
    hide PemLayout, Known, Frame, PublicLogin, IsText, TextAhead, Ascii, Zeroed, OneToServer;
    if s.toServer == [] {
      NothingInFlight(cfg, s);
    }
  }

  /** Up to polling, what the server sends is what the client's reader takes whole from its stream. */
  lemma MessagesAreTaken(cfg: Config, t: Tables, events: seq<Event>, decrypt: C.DecryptingCipher, now: int64)
    requires Valid(cfg) && t.users == cfg.users && Run(cfg, Init(cfg, t), events).Some?
    requires Run(cfg, Init(cfg, t), events).value.client.pollers == 0
    ensures var s := Run(cfg, Init(cfg, t), events).value;
            forall i :: 0 <= i < |s.toClient| ==> J.ForClient(s.toClient[i], cfg.keys.isKey, decrypt, now)
  {
    hide Run, PemLayout, Known, Frame, PublicLogin, Answer, WrappedLogin, Texts, AreTexts, IsText, TextAhead, Ascii,
      Zeroed, Valid, FromAscii;
    var n := EveryRun(cfg, t, events);
    var s := Run(cfg, Init(cfg, t), events).value;
    forall i | 0 <= i < |s.toClient|
      ensures J.ForClient(s.toClient[i], cfg.keys.isKey, decrypt, now)
    {
      if n == 6 || (n == INTERRUPTED && s.server.AwaitWrapped?) {
        KeyIsTaken(cfg, s.server.privateKey, decrypt, now);
      } else if n == INTERRUPTED && s.server.Closed? {
        var privateKey :| PemLayout(cfg.crypto.publicPem(privateKey)) && s.toClient == [ServerKey(cfg, privateKey)];
        KeyIsTaken(cfg, privateKey, decrypt, now);
      }
    }
  }

  lemma KeyIsTaken(cfg: Config, privateKey: bytes, decrypt: C.DecryptingCipher, now: int64)
    requires Valid(cfg) && PemLayout(cfg.crypto.publicPem(privateKey))
    ensures J.ForClient(ServerKey(cfg, privateKey), cfg.keys.isKey, decrypt, now)
  {
    hide IsKeyText, FromAscii;
    assert Usable(cfg, privateKey);
  }

  lemma NoTexts()
    ensures AreTexts([]) && Frames([]) == []
  {
  }

  lemma NothingInFlight(cfg: Config, s: Sys)
    requires s.toServer == []
    ensures OneToServer(cfg, s)
  {
    hide Frame, PublicLogin, Answer, WrappedLogin, IsText;
    assert s.toServer == [] + Frames([]) && AreTexts([]);
  }

  lemma FlightOnTheWay(cfg: Config, s: Sys, n: nat)
    requires Known(cfg, s, n) && OnTheWay(cfg, s, n) && n < 9
    ensures s.server.Closed? || OneToServer(cfg, s)
  {
    hide PemLayout, Frame, Frames, PublicLogin, Answer, WrappedLogin, AreTexts, IsText, Ascii, Zeroed, NameFits,
      Accepts;
    NoTexts();
    if n == 7 {
      var ms :| AreTexts(ms) && s.toServer == Frame(WrappedLogin(cfg, s.server.privateKey)) + Frames(ms);
    } else if n == 8 {
      var ms :| AreTexts(ms) && s.toServer == Frames(ms);
      assert s.toServer == [] + Frames(ms);
    } else {
      assert s.toServer == s.toServer + Frames([]);
    }
  }

  // ---------- How a login ends ----------

  /** The login has all it takes: for the answer, as far as one has been asked for. */
  ghost predicate Can(cfg: Config, s: Sys) {
    && NameFits(cfg) && cfg.typed != []
    && (s.asked.Some? ==> Accepts(cfg, s.asked.value))
    && |cfg.keys.publicPem| == ASYMMETRIC_LENGTH
    && !s.early
  }

  /** A login message on its way to the server can be read. */
  lemma CanRead(cfg: Config, s: Sys, n: nat)
    requires Valid(cfg) && Known(cfg, s, n) && OnTheWay(cfg, s, n) && (n == 1 || n == 3 || n == 5 || n == 7)
    requires n == 5 ==> |cfg.keys.publicPem| >= ASYMMETRIC_LENGTH
    ensures !Blocked(s.toServer) && InLogin(s.server)
  {
    hide PemLayout, Frame, Frames, Usable, Blocked, DecodeFrame, IsKeyText, Answer, WrappedLogin, PublicLogin, NameFits,
      Ascii, Zeroed, Accepts;
    var stale := _ => 0;
    if n == 1 {
      LoginIsTaken(cfg, NoKey, [], stale);
      assert s.toServer + [] == s.toServer;
    } else if n == 3 {
      AnswerIsTaken(cfg, s.asked.value, stale);
    } else if n == 5 {
      PublicLoginIsTaken(cfg, [], stale);
      assert s.toServer + [] == s.toServer;
    } else {
      var ms :| AreTexts(ms) && s.toServer == Frame(WrappedLogin(cfg, s.server.privateKey)) + Frames(ms);
      WrappedFits(cfg, s.server.privateKey);
      LoginIsTaken(cfg, WrappedLogin(cfg, s.server.privateKey).key, Frames(ms), stale);
    }
  }

  lemma SomethingForClient(cfg: Config, s: Sys, n: nat)
    requires n < 9 && n % 2 == 0 && n > 0 && OnTheWay(cfg, s, n)
    ensures s.toClient != [] && !s.client.working
  {
    hide PemLayout, Frame, Answer, PublicLogin, AreTexts, Texts, NameFits, Ascii, Zeroed;
  }

  /** In each phase up to polling, the one message under way can be read. */
  lemma CanMove(cfg: Config, s: Sys, n: nat, challenge: bytes, privateKey: bytes) returns (e: Event)
    requires Valid(cfg) && n < 9 && Phase(cfg, s, n) && (n == 5 ==> |cfg.keys.publicPem| >= ASYMMETRIC_LENGTH)
    requires |challenge| == CHALLENGE_LENGTH && PemLayout(cfg.crypto.publicPem(privateKey))
    ensures Moves(s, e) && Apply(cfg, s, e).Some?
  {
    hide PemLayout, Frame, Valid, Blocked, ServerTurn, ClientTurn, OnTheWay, Stopped, NameFits, Accepts;
    if n == 0 {
      e := UserLogsIn;
    } else if n % 2 == 0 {
      e := ClientReads(0, true);
      SomethingForClient(cfg, s, n);
    } else {
      e := ServerReads(challenge, privateKey, _ => 0, SomeResults(), _ => 0);
      CanRead(cfg, s, n);
    }
  }

  function SomeResults(): Results {
    (t: Tables, seconds: int, email: bytes) => Select(t, |t.transactions|, seconds, email)
  }

  lemma SomeKey(cfg: Config) returns (challenge: bytes, privateKey: bytes)
    requires Valid(cfg)
    ensures |challenge| == CHALLENGE_LENGTH && PemLayout(cfg.crypto.publicPem(privateKey))
  {
    hide PemLayout, Usable, IsKeyText;
    privateKey :| PemLayout(cfg.crypto.publicPem(privateKey));
    challenge := seq(CHALLENGE_LENGTH, _ => 0);
  }

  lemma NotSettled(cfg: Config, s: Sys, n: nat)
    requires Valid(cfg) && n < 9 && Phase(cfg, s, n) && (n == 5 ==> |cfg.keys.publicPem| >= ASYMMETRIC_LENGTH)
    ensures !Settled(cfg, s)
  {
    hide PemLayout, Valid, Known, Apply, Moves, Zeroed, Ascii, Frame;
    var challenge, privateKey := SomeKey(cfg);
    var e := CanMove(cfg, s, n, challenge, privateKey);
  }

  lemma InterruptedSettles(cfg: Config, s: Sys)
    requires Valid(cfg) && Phase(cfg, s, INTERRUPTED) && Settled(cfg, s)
    ensures s.server.Closed?
  {
    hide PemLayout, Usable, IsKeyText, Accepts, NameFits, Zeroed, Ascii, Frame, PublicLogin, Blocked, DecodeFrame,
      ServerTurn, IsText, Known;
    var challenge, privateKey := SomeKey(cfg);
    var stale := _ => 0;
    var e := ServerReads(challenge, privateKey, stale, SomeResults(), stale);
    assert Moves(s, e) ==> Apply(cfg, s, e).None?;
    NameOnTheWay(cfg, s);
    if s.server.AwaitKeyRequest? {
      var m, tail :| IsText(m) && s.toServer == PublicLogin(cfg) + (Frame(m) + tail);
      PublicLoginIsTaken(cfg, Frame(m) + tail, stale);
    } else if s.server.AwaitWrapped? {
      var m, tail :| IsText(m) && s.toServer == Frame(m) + tail;
      TextIsTaken(m, tail, stale);
    }
  }

  lemma NameOnTheWay(cfg: Config, s: Sys)
    requires Phase(cfg, s, INTERRUPTED)
    ensures NameFits(cfg) && |cfg.keys.publicPem| >= ASYMMETRIC_LENGTH
  {
    hide Stopped, Accepts, NameFits;
  }

  /**
   A login gets to polling, with eight messages, if and only if: the name fits the window's pattern and the
   constructor; a password was typed; its hash with the challenge and the nonce of this run is that of the stored
   password; the client's key text has 271 characters; and no text is sent before the symmetric key. This is so in
   every run in which no step of the login is left to take.
   */
  lemma LoginCompletes(cfg: Config, t: Tables, events: seq<Event>)
    requires Valid(cfg) && t.users == cfg.users && Run(cfg, Init(cfg, t), events).Some?
    requires Settled(cfg, Run(cfg, Init(cfg, t), events).value)
    ensures var s := Run(cfg, Init(cfg, t), events).value;
            && (Completed(cfg, s) <==> Can(cfg, s))
            && (Can(cfg, s) ==> s.asked.Some? && s.verdict == Some(true))
  {
    hide Run, PemLayout, Frame, PublicLogin, Answer, WrappedLogin, Texts, AreTexts, IsText, TextAhead, Ascii, Zeroed,
      NameFits, Accepts, Settled, Valid;
    var n := EveryRun(cfg, t, events);
    var s := Run(cfg, Init(cfg, t), events).value;
    if n < 9 && (n == 5 ==> |cfg.keys.publicPem| >= ASYMMETRIC_LENGTH) {
      NotSettled(cfg, s, n);
    }
  }

  /** Where it stays otherwise, condition by condition. */
  lemma LoginStops(cfg: Config, t: Tables, events: seq<Event>)
    requires Valid(cfg) && t.users == cfg.users && Run(cfg, Init(cfg, t), events).Some?
    requires Settled(cfg, Run(cfg, Init(cfg, t), events).value)
    ensures var s := Run(cfg, Init(cfg, t), events).value;
            if !NameFits(cfg) then s.server == AwaitLogin && s.sent == 0 && !s.client.authenticated
            else if cfg.typed == [] then s.server.AwaitResponse? && s.sent == 2 && s.toServer == [] && s.toClient == []
            else
              && s.asked.Some?
              && if !Accepts(cfg, s.asked.value) then
                   s.server.Closed? && s.sent <= 4 && !s.client.authenticated && s.client.pollers == 0
                 else if |cfg.keys.publicPem| < ASYMMETRIC_LENGTH
                     && |cfg.keys.publicPem + s.behind| < ASYMMETRIC_LENGTH then
                   s.server == AwaitKeyRequest(Name(cfg)) && Blocked(s.toServer) && s.client.authenticated
                       && !s.client.hasExchangedKeys
                 else if |cfg.keys.publicPem| != ASYMMETRIC_LENGTH || s.early then
                   s.server.Closed? && s.client.authenticated && s.client.pollers == 0
                 else Completed(cfg, s)
  {
    hide Run, PemLayout, Frame, Answer, WrappedLogin, PublicLogin, Blocked, Texts, AreTexts, IsText, TextAhead, Ascii,
      Zeroed, NameFits, Accepts, Settled, Usable, IsKeyText;
    var n := EveryRun(cfg, t, events);
    var s := Run(cfg, Init(cfg, t), events).value;
    if n < 9 && (n == 5 ==> |cfg.keys.publicPem| >= ASYMMETRIC_LENGTH) {
      NotSettled(cfg, s, n);
    } else if n == 5 {
      PublicLoginIsTaken(cfg, [], _ => 0);
    } else if n == INTERRUPTED {
      InterruptedSettles(cfg, s);
    } else if n == COVERED {
      CoveredSettles(cfg, s);
    }
  }

  lemma CoveredSettles(cfg: Config, s: Sys)
    requires Valid(cfg) && Phase(cfg, s, COVERED) && Settled(cfg, s)
    ensures if |cfg.keys.publicPem + s.behind| < ASYMMETRIC_LENGTH
        then s.server == AwaitKeyRequest(Name(cfg)) && Blocked(s.toServer)
            else s.server.Closed?
  {
    hide PemLayout, Usable, IsKeyText, Accepts, NameFits, Zeroed, Ascii, Frame, PublicLogin, Blocked, DecodeFrame,
      ServerTurn;
    var challenge, privateKey := SomeKey(cfg);
    var stale := _ => 0;
    var e := ServerReads(challenge, privateKey, stale, SomeResults(), stale);
    assert Moves(s, e) ==> Apply(cfg, s, e).None?;
    if |cfg.keys.publicPem + s.behind| < ASYMMETRIC_LENGTH {
      ShortKey(cfg, s.behind);
    } else if s.server.AwaitKeyRequest? {
      FilledKey(cfg, s.behind, stale);
    }
  }

  /**
   Until then it does not stop: with all it takes, it is in the phase of as many steps as have been taken, a next step
   is possible, and nine steps complete it.
   */
  lemma LoginGoesOn(cfg: Config, t: Tables, events: seq<Event>)
    requires Valid(cfg) && t.users == cfg.users && Run(cfg, Init(cfg, t), events).Some?
    requires Can(cfg, Run(cfg, Init(cfg, t), events).value)
    ensures var s := Run(cfg, Init(cfg, t), events).value;
            && (s.moves >= 9 <==> Completed(cfg, s))
            && (s.moves < 9 ==> Phase(cfg, s, s.moves) && exists e: Event :: Moves(s, e) && Apply(cfg, s, e).Some?)
  {
    hide Run, PemLayout, Frame, PublicLogin, Answer, WrappedLogin, Texts, AreTexts, IsText, TextAhead, Ascii, Zeroed,
      NameFits, Accepts, Valid, Moves, Apply;
    var n := EveryRun(cfg, t, events);
    var s := Run(cfg, Init(cfg, t), events).value;
    if n < 9 {
      var challenge, privateKey := SomeKey(cfg);
      var e := CanMove(cfg, s, n, challenge, privateKey);
    }
  }

  /**
   In every run, once the answer to this run's challenge has been read, it has been taken if and only if its hash is
   the stored password's; four steps are enough for that. If not, the server has closed and the client never becomes
   authenticated, and never polls.
   */
  lemma PasswordDecides(cfg: Config, t: Tables, events: seq<Event>)
    requires Valid(cfg) && t.users == cfg.users && Run(cfg, Init(cfg, t), events).Some?
    ensures var s := Run(cfg, Init(cfg, t), events).value;
            && (NameFits(cfg) && cfg.typed != [] && s.moves >= 4 ==> s.verdict.Some?)
            && (s.verdict.Some? ==>
                  && s.asked.Some? && s.drawn == Some(s.asked.value.challenge)
                  && (s.verdict.value <==> Accepts(cfg, s.asked.value)))
            && (s.verdict == Some(false) ==>
                  s.server.Closed? && s.sent <= 4 && !s.client.authenticated && s.client.pollers == 0)
            && (s.verdict != Some(true) ==> !s.client.authenticated && s.client.pollers == 0 && !s.server.Chatting?)
  {
    hide Run, PemLayout, Frame, PublicLogin, Answer, WrappedLogin, Texts, AreTexts, IsText, TextAhead, Ascii, Zeroed,
      NameFits, Accepts, Valid;
    var n := EveryRun(cfg, t, events);
  }

  /**
   Whether an answer is taken, said of the rows of the login table: the digest of the challenge drawn, the client's
   nonce and the password typed prints like the one with the password of the user's row; never without a row, or with
   an empty password in it.
   */
  lemma RowDecides(cfg: Config, a: Asked)
    requires Valid(cfg)
    ensures forall i: nat :: OnlyRow(cfg.users, i, Name(cfg)) ==>
              (Accepts(cfg, a) <==>
                 && cfg.users[i].password != []
                 && cfg.crypto.sha(a.challenge + BigEndian(a.nonce, 8) + cfg.typed)
                    == cfg.crypto.sha(a.challenge + BigEndian(a.nonce, 8) + cfg.users[i].password))
    ensures (forall i :: 0 <= i < |cfg.users| ==> cfg.users[i].email != Name(cfg)) ==> !Accepts(cfg, a)
  {
    hide Password, ClientHash, ServerHash, Usable, IsKeyText, PemLayout, OnlyRow, BigEndian, Ascii;
    forall i: nat | OnlyRow(cfg.users, i, Name(cfg))
      ensures i < |cfg.users| && Password(cfg.users, Name(cfg)) == cfg.users[i].password
      ensures ClientHash(cfg.crypto.sha, a.challenge, a.nonce, cfg.typed)
           == ServerHash(cfg.crypto.sha, a.challenge, BigEndian(a.nonce, 8), cfg.users[i].password)
         <==> cfg.crypto.sha(a.challenge + BigEndian(a.nonce, 8) + cfg.typed)
              == cfg.crypto.sha(a.challenge + BigEndian(a.nonce, 8) + cfg.users[i].password)
    {
      RowExists(cfg.users, i, Name(cfg));
      PasswordOfRow(cfg.users, i, Name(cfg));
      HashAgreement(cfg.crypto.sha, a.challenge, a.nonce, cfg.typed, cfg.users[i].password);
    }
  }

  /** Typing the password of one's row is enough, whatever the challenge and the nonce. */
  lemma RightPassword(cfg: Config, a: Asked, i: nat)
    requires Valid(cfg) && OnlyRow(cfg.users, i, Name(cfg))
    requires cfg.users[i].password == cfg.typed != []
    ensures Accepts(cfg, a)
  {
    hide Valid, OnlyRow, BigEndian, Ascii, Accepts;
    RowDecides(cfg, a);
  }

  // ---------- The reader thread ----------

  predicate AllReadable(events: seq<Event>) {
    forall i :: 0 <= i < |events| && events[i].ClientReads? ==> events[i].readable
  }

  lemma LatchIsFree(cfg: Config, s: Sys, n: nat)
    requires Phase(cfg, s, n) && n != 9
    ensures !s.client.working
  {
    hide PemLayout, Known, Frame, PublicLogin, Answer, WrappedLogin, Texts, AreTexts, IsText, TextAhead, Ascii, Zeroed;
  }

  lemma StepKeepsReading(cfg: Config, s: Sys, e: Event, n: nat)
    requires Valid(cfg) && n <= COVERED && Phase(cfg, s, n) && Apply(cfg, s, e).Some? && !s.client.working
    requires e.ClientReads? ==> e.readable
    ensures !Apply(cfg, s, e).value.client.working
  {
    hide Valid, PemLayout, Known, Frame, PublicLogin, Answer, WrappedLogin, Texts, AreTexts, IsText, TextAhead, Ascii,
      Zeroed, ServerTurn, LoginSent, NameFits, FromAscii, ClientHash;
    if e.ClientReads? && n != 8 && n != 9 {
      var n' := ClientStep(cfg, s, e, n);
      LatchIsFree(cfg, Apply(cfg, s, e).value, n');
    } else if e.ServerReads? {
      ServerLeavesClient(cfg, s, e);
    }
  }

  lemma ServerLeavesClient(cfg: Config, s: Sys, e: Event)
    requires e.ServerReads? && Apply(cfg, s, e).Some?
    ensures Apply(cfg, s, e).value.client == s.client
  {
    hide DecodeFrame, Blocked, LoginStep, ChatStep, PemLayout;
  }

  /** As long as every list can be read, the reader thread never stops. */
  lemma {:induction false} ReaderGoesOn(cfg: Config, s: Sys, events: seq<Event>, n: nat)
    requires Valid(cfg) && n <= COVERED && Phase(cfg, s, n) && !s.client.working
    requires Run(cfg, s, events).Some? && AllReadable(events)
    ensures !Run(cfg, s, events).value.client.working
    decreases |events|
  {
    hide Phase, Apply, Valid;
    if events != [] {
      StepKeepsReading(cfg, s, events[0], n);
      var mid := PhaseStep(cfg, s, events[0], n);
      ReaderGoesOn(cfg, Apply(cfg, s, events[0]).value, events[1..], mid);
    }
  }

  lemma ReaderNeverStops(cfg: Config, t: Tables, events: seq<Event>)
    requires Valid(cfg) && t.users == cfg.users && Run(cfg, Init(cfg, t), events).Some? && AllReadable(events)
    ensures !Run(cfg, Init(cfg, t), events).value.client.working
  {
    hide Run, Valid, PemLayout;
    assert Phase(cfg, Init(cfg, t), 0);
    ReaderGoesOn(cfg, Init(cfg, t), events, 0);
  }

  /** A client that polls reads all that is on its way to it, list by list. */
  lemma {:induction false} QueueEmpties(cfg: Config, s: Sys)
    requires Valid(cfg) && Phase(cfg, s, 9) && !s.client.working
    ensures var r := Run(cfg, s, seq(|s.toClient|, _ => ClientReads(0, true)));
            && r.Some? && r.value.toClient == [] && !r.value.client.working
            && r.value.server == s.server && r.value.tables == s.tables && r.value.toServer == s.toServer
    decreases |s.toClient|
  {
    hide Valid, PemLayout, Known, Frame, PublicLogin, Ascii, Zeroed, LoginSent, NameFits, FromAscii, ClientHash;
    var queue: seq<Event> := seq(|s.toClient|, _ => ClientReads(0, true));
    if s.toClient != [] {
      var e := ClientReads(0, true);
      ClientReadsLater(cfg, s, e, 9);
      var s' := Apply(cfg, s, e).value;
      assert s.toClient[0].PollResponse?;
      assert s'.toServer == s.toServer + [] == s.toServer;
      assert queue[0] == e && queue[1..] == seq(|s'.toClient|, _ => ClientReads(0, true));
      QueueEmpties(cfg, s');
    }
  }

  /**
   The window of the user interface opens with the first acknowledgement, before the keys are exchanged. When
   everything else is right, the session ends without polling if and only if a text was sent before the symmetric key,
   in whatever phase and under whatever schedule: the server takes it for the login with that key.
   */
  lemma EarlyTextEndsSession(cfg: Config, t: Tables, events: seq<Event>)
    requires Valid(cfg) && t.users == cfg.users && Run(cfg, Init(cfg, t), events).Some?
    requires NameFits(cfg) && cfg.typed != [] && |cfg.keys.publicPem| == ASYMMETRIC_LENGTH
    requires var s := Run(cfg, Init(cfg, t), events).value;
             Settled(cfg, s) && s.asked.Some? && Accepts(cfg, s.asked.value)
    ensures var s := Run(cfg, Init(cfg, t), events).value;
            && (s.early <==> !Completed(cfg, s))
            && (s.early ==> s.server.Closed? && s.client.pollers == 0)
  {
    hide Run, PemLayout, NameFits, Accepts, Settled, Valid;
    LoginCompletes(cfg, t, events);
    LoginStops(cfg, t, events);
  }

  /** A text sent after the symmetric key is stored, also before the last acknowledgement, and the chat goes on. */
  lemma LaterTextIsStored(cfg: Config, s: Sys, m: Message, tail: bytes, challenge: bytes, privateKey: bytes,
                          stale: Memory, results: Results, replyStale: Memory)
    requires s.server == Chatting(Name(cfg), cfg.keys.symmetricKey) && s.toServer == Frame(m) + tail
    requires IsText(m) && Fine(m, stale) && m.records != [] && m.records[0].sender == Name(cfg)
    requires |challenge| == CHALLENGE_LENGTH && PemLayout(cfg.crypto.publicPem(privateKey))
    ensures var next := Apply(cfg, s, ServerReads(challenge, privateKey, stale, results, replyStale));
            && next.Some? && next.value.server == s.server && next.value.toServer == tail
                && next.value.toClient == s.toClient
            && next.value.tables == ChatStep(cfg.crypto, s.server, s.tables, m, results, replyStale).tables
            && next.value.tables.messages
               == s.tables.messages + [Assembled(cfg.crypto, cfg.keys.symmetricKey, m.records)]
            && |next.value.tables.transactions| == |s.tables.transactions| + 1
  {
    hide Frame, Blocked, DecodeFrame, DecodePayload, Fine, PemLayout, Ascii, Assembled;
    FrameIsTaken(m, tail, false, stale);
    RoundTrip(m, stale);
  }

  /** Once a server chats, it keeps user and key to the end of the run, or stops chatting for good. */
  lemma {:induction false} KeyNeverChanges(cfg: Config, s: Sys, events: seq<Event>)
    requires Run(cfg, s, events).Some? && !InLogin(s.server)
    ensures var s' := Run(cfg, s, events).value.server;
            !InLogin(s') && (s'.Chatting? ==> s' == s.server)
    decreases |events|
  {
    hide ChatStep, Receive, Blocked, DecodeFrame;
    if events != [] {
      var s' := Apply(cfg, s, events[0]).value;
      if s.server.Chatting? && events[0].ServerReads? {
        var d := DecodeFrame(s.toServer, false, events[0].stale);
        if d.0.Ok? {
          ChatKeepsKey(cfg.crypto, s.server, s.tables, d.0.value, events[0].results, events[0].replyStale);
        }
      }
      KeyNeverChanges(cfg, s', events[1..]);
    }
  }
}
