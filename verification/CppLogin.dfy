/** The server's login message: the object whose key fields the setters and the decoder fill in place. */
module CppLogin {
  import opened Wrappers
  import opened Bytes
  import opened Messages
  import opened CppCodec

  const NO_KEY: byte := 0
  const ASYMMETRIC_KEY: byte := 1
  const ENCRYPTED_SYM_KEY: byte := 2

  /** The comparison loop of the header and of the footer check. */
  method Scan(text: bytes, pos: nat, wanted: bytes) returns (ok: bool)
    requires pos + |wanted| <= |text|
    ensures ok == (text[pos..pos + |wanted|] == wanted)
  {
    for i := 0 to |wanted|
      invariant text[pos..pos + i] == wanted[..i]
    {
      if wanted[i] != text[pos + i] {
        assert text[pos..pos + |wanted|][i] != wanted[i];
        return false;
      }
      assert text[pos..pos + i + 1] == text[pos..pos + i] + [text[pos + i]];
      assert wanted[..i + 1] == wanted[..i] + [wanted[i]];
    }
    assert wanted[..|wanted|] == wanted;
    return true;
  }

  class SPChatLogin {
    var username: bytes
    var keyType: byte
    var key: bytes        // a public key
    var encSymKey: bytes  // a wrapped symmetric key

    function Value(): Message
      reads this
    {
      Login(username,
            if keyType == ASYMMETRIC_KEY then PublicKey(key)
            else if keyType == ENCRYPTED_SYM_KEY then WrappedKey(encSymKey)
            else NoKey)
    }

    /** What a key setter leaves behind when it does not throw. */
    predicate Settled()
      reads this
    {
      && keyType <= ENCRYPTED_SYM_KEY
      && (keyType == ASYMMETRIC_KEY ==> PemLayout(key))
      && (keyType == ENCRYPTED_SYM_KEY ==> key == [] && |encSymKey| == ENCRYPTED_SYM_LENGTH)
    }

    constructor ()
      ensures key == [] && encSymKey == []
    {
      username, keyType, key, encSymKey := [], NO_KEY, [], [];
    }

    /** Checks header line, footer line and newline positions, in this order. */
    method SetAsymmetricKey(newKey: bytes) returns (r: Result<()>)
      requires |newKey| == ASYMMETRIC_LENGTH
      modifies this
      ensures username == old(username) && encSymKey == old(encSymKey) && keyType == ASYMMETRIC_KEY
      ensures r == if PemLayout(newKey) then Ok(()) else Err(AsymmetricKey)
      ensures key == if PemLayout(newKey) then newKey else old(key)
    {
      keyType := ASYMMETRIC_KEY;
      var ok := Scan(newKey, 0, ASYMMETRIC_HEADER);
      if !ok {
        return Err(AsymmetricKey);
      }
      var footerPos := ASYMMETRIC_LENGTH - |ASYMMETRIC_FOOTER| + 1;
      ok := Scan(newKey, footerPos, ASYMMETRIC_FOOTER[..|ASYMMETRIC_FOOTER| - 1]);
      if !ok {
        return Err(AsymmetricKey);
      }
      for i := 0 to 4
        invariant keyType == ASYMMETRIC_KEY && key == old(key)
        invariant forall j :: 0 <= j < i ==> newKey[ASYMMETRIC_ENDLINE_POS[j]] == ENDLINE
      {
        if ENDLINE != newKey[ASYMMETRIC_ENDLINE_POS[i]] {
          return Err(AsymmetricKey);
        }
      }
      key := newKey;
      return Ok(());
    }

    /** The setter the server uses for the key it sends; `newKey` may be longer than `keyLen`. */
    method SetKey(newType: byte, newKey: bytes, keyLen: nat) returns (r: Result<()>)
      requires keyLen <= |newKey|
      modifies this
      ensures username == old(username)
      ensures r.Ok? ==> Settled()
      ensures r.Ok? <==>
              || newType == NO_KEY
              || (newType == ASYMMETRIC_KEY && keyLen == ASYMMETRIC_LENGTH && PemLayout(newKey[..keyLen]))
              || (newType == ENCRYPTED_SYM_KEY && keyLen == ENCRYPTED_SYM_LENGTH)
      ensures r.Ok? ==> Value() == Login(username,
                if newType == NO_KEY then NoKey
                else if newType == ASYMMETRIC_KEY then PublicKey(newKey[..keyLen])
                else WrappedKey(newKey[..keyLen]))
    {
      key, encSymKey := [], [];
      if newType == NO_KEY {
        keyType := NO_KEY;
      } else if newType == ASYMMETRIC_KEY && keyLen == ASYMMETRIC_LENGTH {
        var _ :- SetAsymmetricKey(newKey[..keyLen]);
        keyType := newType;
      } else if newType == ENCRYPTED_SYM_KEY && keyLen == ENCRYPTED_SYM_LENGTH {
        keyType := newType;
        encSymKey := encSymKey + newKey[..keyLen];
        assert encSymKey == newKey[..keyLen];
      } else {
        return Err(BadKey);
      }
      return Ok(());
    }

    /** The setter the decoder uses: everything behind the cursor has to be the wrapped key. */
    method SetKeyFrom(newType: byte, cur: Cursor) returns (r: Result<()>)
      requires cur.pos <= |cur.buf|
      modifies this
      ensures username == old(username) && key == []
      ensures var rest := cur.buf[cur.pos..];
              if newType == ENCRYPTED_SYM_KEY && |rest| == ENCRYPTED_SYM_LENGTH
              then r == Ok(()) && keyType == newType && encSymKey == rest
              else r == Err(BadKey)
    {
      key, encSymKey := [], [];
      if newType == ENCRYPTED_SYM_KEY && |cur.buf| - cur.pos == ENCRYPTED_SYM_LENGTH {
        keyType := newType;
        encSymKey := encSymKey + cur.buf[cur.pos..];
        return Ok(());
      }
      return Err(BadKey);
    }

    method DecodeKey(cur: Cursor) returns (r: Result<()>)
      requires key == [] && cur.pos <= |cur.buf|
      modifies this, cur
      ensures username == old(username)
      ensures var d := Messages.DecodeKey(cur.buf, old(cur.pos));
              if d.Ok? then r == Ok(()) && Settled() && Value() == Login(username, d.value) else r == Err(d.error)
    {
      if |cur.buf| - cur.pos < 1 {
        return Err(TooShort);
      }
      var type_ := cur.buf[cur.pos];
      cur.pos := cur.pos + 1;
      if type_ == NO_KEY {
        keyType := NO_KEY;
      } else if type_ == ASYMMETRIC_KEY && |cur.buf| - cur.pos >= ASYMMETRIC_LENGTH {
        var _ :- SetAsymmetricKey(cur.buf[cur.pos..cur.pos + ASYMMETRIC_LENGTH]);
      } else if type_ == ENCRYPTED_SYM_KEY && |cur.buf| - cur.pos >= ENCRYPTED_SYM_LENGTH {
        var _ :- SetKeyFrom(type_, cur);
        cur.pos := cur.pos + ENCRYPTED_SYM_LENGTH;
      } else {
        return Err(BadKey);
      }
      return Ok(());
    }

    method DecodeFrom(buf: bytes) returns (r: Result<()>)
      requires key == []
      modifies this
      ensures var d := DecodeLogin(buf);
              if d.Ok? then r == Ok(()) && Settled() && Value() == d.value else r == Err(d.error)
    {
      hide Messages.DecodeString, Messages.DecodeKey, ValidUsername, PemLayout;
      var cur := new Cursor(buf);
      var name :- cur.DecodeString();
      var ok := IsValidUsername(name);
      if !ok {
        return Err(BadUsername);
      }
      username := name;
      r := DecodeKey(cur);
    }

    method GetPayloadLength() returns (length: nat)
      requires Settled()
      ensures length == |Payload(Value())|
    {
      length := 4 + |username| + 1;
      if keyType == ASYMMETRIC_KEY {
        length := length + ASYMMETRIC_LENGTH;
      } else if keyType == ENCRYPTED_SYM_KEY {
        length := length + ENCRYPTED_SYM_LENGTH;
      }
    }

    /**
     The body is taken from `key` whatever the key type is, and a wrapped key is kept in `encSymKey`: the
     bytes are the frame of the message for the other two key types and for no wrapped key.
     */
    method Encode(buf: ByteVector)
      requires Settled()
      modifies buf
      ensures buf.data == old(buf.data) + Frame(Value()) <==> keyType != ENCRYPTED_SYM_KEY
      ensures keyType == ENCRYPTED_SYM_KEY ==>
                buf.data + encSymKey == old(buf.data) + Frame(Value())
    {
      hide BigEndian, FrameHeader, StringBytes, PemLayout, Frame, Payload;
      ghost var before := buf.data;
      var length := GetPayloadLength();
      EncodeHeader(buf, 0, length);
      EncodeString(buf, username);
      buf.PushBack(keyType);
      ghost var head := buf.data;
      FrameOfLogin(before, Value(), length);
      assert head == before + FrameHeader(0, length) + StringBytes(username) + [KeyByte(Value().key)];
      if keyType == ASYMMETRIC_KEY || keyType == ENCRYPTED_SYM_KEY {
        buf.Insert(key);
      }
      Extends(head, KeyBytes(Value().key));
    }
  }

  lemma FrameOfLogin(before: bytes, m: Message, length: nat)
    requires m.Login? && length == |Payload(m)|
    ensures before + Frame(m)
         == before + FrameHeader(0, length) + StringBytes(m.user) + [KeyByte(m.key)] + KeyBytes(m.key)
  {
    hide FrameHeader, StringBytes;
  }

  lemma Extends(head: bytes, body: bytes)
    ensures head + [] == head
    ensures head + body == head <==> body == []
  {
  }
}
