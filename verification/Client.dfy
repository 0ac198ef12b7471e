/** The client's side of the login: the fields the handlers update and the reader thread that calls them. */
module Client {
  import opened Wrappers
  import opened Bytes
  import opened Messages
  import opened Hashing
  import opened JavaCodec

  /** The keys the client starts with and the library calls it makes. */
  datatype ClientKeys = ClientKeys(
    sha: bytes -> bytes,
    symmetricKey: bytes,
    publicPem: bytes,
    isKey: string -> bool,                   // a key can be decoded from the text
    wrap: (string, bytes) -> Option<bytes>)  // under the key of such a text; `None`: the cipher throws

  datatype ClientState = ClientState(
    username: string,
    input: bytes,             // the password typed; overwritten once used
    authenticated: bool,
    hasExchangedKeys: bool,
    pollers: nat,             // poll threads started
    working: bool)            // the reader's latch

  /** What the constructor and the encoder of a login write: nothing where the constructor throws. */
  function LoginSent(username: string, key: Key): bytes {
    if |username| <= MAX_UNAME_LEN then LoginBytes(username, key) else []
  }

  /**
   A message read: the next state and the bytes sent. Whether the rest of a poll response can be read is left to
   `readable`; see `JavaReader`.
   */
  function Receive(k: ClientKeys, s: ClientState, m: Message, nonce: int64, readable: bool): (ClientState, bytes)
    requires !s.working
  {
    match m
    case Ack(error, sender) =>
      if !s.authenticated && error.PasswordAuth? && sender.Server? then
        (s.(authenticated := true), LoginSent(s.username, PublicKey(k.publicPem)))
      else if error.Success? && sender.Server? && s.hasExchangedKeys then (s.(pollers := s.pollers + 1), [])
      else (s, [])
    case Challenge(challenge) =>
      if s.input == [] then (s, [])
      else if |s.username| > MAX_UNAME_LEN then (s.(working := true), [])
      else
        var hash := Ascii(ClientHash(k.sha, challenge, nonce, s.input));
        (s.(input := seq(|s.input|, _ => '0' as int)), Frame(Response(Ascii(s.username), hash, BigEndian(nonce, 8))))
    case Login(user, key) =>
      if |user| > MAX_UNAME_LEN then (s.(working := true), [])
      else if !key.PublicKey? then (s, [])
      else if user != [] || !k.isKey(FromAscii(key.pem)) then (s.(working := true), [])
      else
        var wrapped := k.wrap(FromAscii(key.pem), k.symmetricKey);
        if wrapped.None? || |s.username| > MAX_UNAME_LEN then (s, [])
        else (s.(hasExchangedKeys := true), LoginSent(s.username, WrappedKey(wrapped.value)))
    case PollResponse(_, _, _, _) => (s.(working := !readable), [])
    // types the client has no handler for: the payload is taken for the next header, which it is not
    case Response(_, _, _) => (s.(working := true), [])
    case Poll(_, _) => (s.(working := true), [])
  }

  /** Which message changes which field, and which ones are answered at all. */
  lemma ReceiveChanges(k: ClientKeys, s: ClientState, m: Message, nonce: int64, readable: bool)
    requires !s.working
    ensures var (s', out) := Receive(k, s, m, nonce, readable);
            var auth := m.Ack? && m.error.PasswordAuth? && m.sender.Server?;
            var success := m.Ack? && m.error.Success? && m.sender.Server?;
            && s'.username == s.username
            && s'.authenticated == (s.authenticated || auth)
            && s'.pollers == s.pollers + (if success && s.hasExchangedKeys then 1 else 0)
            && (s'.hasExchangedKeys != s.hasExchangedKeys ==> m.Login? && m.key.PublicKey? && m.user == [] && out != [])
            && (s'.input != s.input ==> m.Challenge? && out != [])
            && (out != [] ==> (auth && !s.authenticated) || m.Challenge? || (m.Login? && m.key.PublicKey?))
  {
    hide LoginBytes, Ascii, FromAscii, ClientHash, BigEndian;
    if m.Login? && m.key.PublicKey? && |s.username| <= MAX_UNAME_LEN {
      var w := k.wrap(FromAscii(m.key.pem), k.symmetricKey);
      if w.Some? {
        SomethingSent(s.username, WrappedKey(w.value));
      }
    }
  }

  lemma SomethingSent(username: string, key: Key)
    ensures LoginBytes(username, key) != []
  {
    hide BigEndian;
  }

  class BabbleOnClient {
    const keys: ClientKeys
    const out: DataOutput
    var username: string
    var input: bytes
    var authenticated: bool
    var hasExchangedKeys: bool
    var serverPubKey: Option<string>
    var pollers: nat
    var working: bool

    function State(): ClientState
      reads this
    {
      ClientState(username, input, authenticated, hasExchangedKeys, pollers, working)
    }

    constructor (keys: ClientKeys, username: string, input: bytes)
      ensures this.keys == keys && State() == ClientState(username, input, false, false, 0, false)
      ensures fresh(out) && out.written == []
    {
      this.keys, this.username, this.input := keys, username, input;
      authenticated, hasExchangedKeys, serverPubKey, pollers, working := false, false, None, 0, false;
      out := new DataOutput();
    }

    method HandleACK(error: AckError, sender: Party) returns (working': bool)
      requires !working
      modifies this, out
      ensures var (s, sent) := Receive(keys, old(State()), Ack(error, sender), 0, true);
              State().(working := working') == s && out.written == old(out.written) + sent
    {
      hide LoginBytes;
      if !authenticated && error.PasswordAuth? && sender.Server? {
        authenticated := true;
        var _ := SendLogin(username, PublicKey(keys.publicPem), out);
      } else if !error.Success? && sender.Server? {
        // shown to the user
      } else if sender.Client? {
        // reported
      } else {
        if error.Success? && hasExchangedKeys {
          pollers := pollers + 1;
        }
      }
      return false;
    }

    /** True stands for the exception of the message's constructor, which comes before the password is overwritten. */
    method HandleChallenge(challenge: bytes, nonce: int64) returns (working': bool)
      requires !working
      modifies this, out
      ensures var (s, sent) := Receive(keys, old(State()), Challenge(challenge), nonce, true);
              State().(working := working') == s && out.written == old(out.written) + sent
      ensures !working' ==> |input| == old(|input|) && forall i :: 0 <= i < |input| ==> input[i] == '0' as int
    {
      hide BigEndian, Frame;
      if |input| > 0 {
        var b: bytes := [];
        b := b + challenge;
        b := b + BigEndian(nonce, 8);
        b := b + input;
        assert b == challenge + BigEndian(nonce, 8) + input;
        var hashed := Format(keys.sha(b), 64);
        var r := SendResponse(username, hashed, nonce, out);
        if r.Err? {
          return true;
        }
        input := seq(|input|, _ => '0' as int);
      }
      return false;
    }

    /**
     The key of the server, then the symmetric key wrapped with it. Texts that are no key and other names than the
     server's throw, which true stands for; what the cipher or the message's constructor throws is caught.
     */
    method HandleLogin(user: bytes, key: Key) returns (working': bool)
      requires !working
      modifies this, out
      ensures var (s, sent) := Receive(keys, old(State()), Login(user, key), 0, true);
              State().(working := working') == s && out.written == old(out.written) + sent
    {
      hide LoginBytes, FromAscii;
      if |user| > MAX_UNAME_LEN {
        return true;
      }
      if key.PublicKey? {
        var publicKeyStr := FromAscii(key.pem);
        if !keys.isKey(publicKeyStr) || user != [] {
          return true;
        }
        serverPubKey := Some(publicKeyStr);
        var encrypted := keys.wrap(publicKeyStr, keys.symmetricKey);
        if encrypted.Some? {
          var r := SendLogin(username, WrappedKey(encrypted.value), out);
          if r.Ok? {
            hasExchangedKeys := true;
          }
        }
      }
      return false;
    }

    /**
     One round of the reader thread. The latch is set before the message is read and stays set when a
     handler throws.
     */
    method ReaderRound(m: Message, nonce: int64, readable: bool)
      modifies this, out
      ensures old(working) ==> working
      ensures !old(working) ==>
                (working <==>
                   match m
                   case Ack(_, _) => false
                   case Challenge(_) => old(|input|) > 0 && old(|username|) > MAX_UNAME_LEN
                   case Login(user, key) =>
                     |user| > MAX_UNAME_LEN || (key.PublicKey? && (user != [] || !keys.isKey(FromAscii(key.pem))))
                   case PollResponse(_, _, _, _) => !readable
                   case Response(_, _, _) => true
                   case Poll(_, _) => true)
      ensures if old(working) then State() == old(State()) && out.written == old(out.written)
              else var (s, sent) := Receive(keys, old(State()), m, nonce, readable);
                   State() == s && out.written == old(out.written) + sent
    {
      if !working {
        var w: bool;
        match m {
          case Ack(error, sender) => w := HandleACK(error, sender);
          case Challenge(challenge) => w := HandleChallenge(challenge, nonce);
          case Login(user, key) => w := HandleLogin(user, key);
          case PollResponse(_, _, _, _) => w := !readable;
          case Response(_, _, _) => w := true;
          case Poll(_, _) => w := true;
        }
        working := w;
      }
    }
  }
}
