/**
 The lists of texts as the client writes them, and why none of their bytes can ever be taken for the end of a key text:
 the footer line of a key has a space between letters, which names do not have, and is too long for all other fields.
 */
module ClientText {
  import opened Bytes
  import opened Messages
  import opened JavaCodec

  predicate NameOnWire(name: bytes) {
    ValidUsername(name) && |name| <= MAX_UNAME_LEN
  }

  /** An entry with one encrypted piece. */
  predicate PieceOnWire(r: Record) {
    && NameOnWire(r.sender) && NameOnWire(r.receiver)
    && |r.message| == 16 && 1 <= r.decryptLen <= MAX_MSG_LEN
  }

  /** A list of texts as the send button writes it. */
  predicate IsText(m: Message) {
    && m.PollResponse? && |Payload(m)| <= INT_MAX
    && NameOnWire(m.user) && m.listNum == 1 && m.totalList == 1
    && forall i :: 0 <= i < |m.records| ==> PieceOnWire(m.records[i])
  }

  predicate AreTexts(ms: seq<Message>) {
    forall i :: 0 <= i < |ms| ==> IsText(ms[i])
  }

  const FOOTER: bytes := ASYMMETRIC_FOOTER[..24]

  predicate Occurs(b: bytes, p: nat) {
    p + 24 <= |b| && b[p..p + 24] == FOOTER
  }

  /** Bytes the footer does not have. */
  predicate Stops(x: byte) {
    x == 0 || x == 'S' as int
  }

  lemma FooterBytes(i: nat)
    requires i < 24
    ensures |FOOTER| == 24 && !Stops(FOOTER[i]) && FOOTER[8] == ' ' as int
  {
    var text := "-----END PUBLIC KEY-----\n";
    assert text[i] != 'S';
    assert FOOTER[i] == Ascii(text)[i] && FOOTER[8] == Ascii(text)[8];
  }

  /** The footer is nowhere in these bytes, and cannot reach into them from the front. */
  ghost predicate Safe(b: bytes) {
    (b != [] ==> Stops(b[0])) && forall p: nat :: !Occurs(b, p)
  }

  lemma JoinSafe(a: bytes, b: bytes)
    requires Safe(a) && Safe(b)
    ensures Safe(a + b)
  {
    hide FOOTER;
    forall p: nat
      ensures !Occurs(a + b, p)
    {
      if p + 24 <= |a| {
        assert (a + b)[p..p + 24] == a[p..p + 24];
        assert !Occurs(a, p);
      } else if p >= |a| {
        assert p + 24 <= |a + b| ==> (a + b)[p..p + 24] == b[p - |a|..p - |a| + 24];
        assert !Occurs(b, p - |a|);
      } else if p + 24 <= |a + b| {
        FooterBytes(|a| - p);
        assert (a + b)[p..p + 24][|a| - p] == b[0];
      }
    }
  }

  lemma ShortSafe(b: bytes)
    requires 0 < |b| <= 24 && Stops(b[0])
    ensures Safe(b)
  {
    hide FOOTER;
    forall p: nat
      ensures !Occurs(b, p)
    {
      FooterBytes(0);
      assert p + 24 <= |b| ==> b[p..p + 24][0] == b[0];
    }
  }

  lemma NameSafe(name: bytes)
    requires NameOnWire(name)
    ensures Safe(StringBytes(name))
  {
    hide FOOTER, BigEndian;
    var b := StringBytes(name);
    SmallWidths();
    FirstByte(|name|, 4);
    forall p: nat
      ensures !Occurs(b, p)
    {
      FooterBytes(8);
      if p + 24 <= |b| {
        assert b[p..p + 24][8] == b[p + 8] == name[p + 4];
        assert UsernameChar(name[p + 4]);
      }
    }
  }

  lemma RecordSafe(r: Record)
    requires PieceOnWire(r)
    ensures Safe(RecordBytes(r))
  {
    hide BigEndian, Safe, NameOnWire;
    SmallWidths();
    FirstByte(16, 4);
    FirstByte(r.decryptLen, 8);
    var names := StringBytes(r.sender) + StringBytes(r.receiver);
    var numbers := BigEndian(r.decryptLen, 8) + BigEndian(r.number, 4) + BigEndian(r.total, 4) + BigEndian(r.time, 8);
    NameSafe(r.sender);
    NameSafe(r.receiver);
    JoinSafe(StringBytes(r.sender), StringBytes(r.receiver));
    ShortSafe(StringBytes(r.message));
    JoinSafe(names, StringBytes(r.message));
    ShortSafe(numbers);
    JoinSafe(names + StringBytes(r.message), numbers);
    assert RecordBytes(r) == names + StringBytes(r.message) + numbers;
  }

  lemma {:induction false} RecordsSafe(rs: seq<Record>)
    requires forall i :: 0 <= i < |rs| ==> PieceOnWire(rs[i])
    ensures Safe(RecordsBytes(rs))
  {
    hide Safe, RecordBytes, PieceOnWire;
    if rs == [] {
      NothingSafe();
    } else {
      RecordSafe(rs[0]);
      RecordsSafe(rs[1..]);
      JoinSafe(RecordBytes(rs[0]), RecordsBytes(rs[1..]));
    }
  }

  lemma NothingSafe()
    ensures Safe([])
  {
  }

  lemma HeaderSafe(length: nat)
    requires length <= INT_MAX
    ensures Safe(FrameHeader(6, length))
  {
    hide BigEndian;
    SmallWidths();
    FirstByte(length, 8);
    var text := "SPChat/1.0";
    assert HEADER[0] == Ascii(text)[0] == 'S' as int;
    ShortSafe(FrameHeader(6, length));
  }

  lemma FrameSafe(m: Message)
    requires IsText(m)
    ensures Safe(Frame(m)) && Frame(m) != []
  {
    hide BigEndian, Safe, NameOnWire, PieceOnWire, FrameHeader, StringBytes, RecordsBytes, Frame, Payload;
    var user, numbers := StringBytes(m.user), BigEndian(1, 4) + BigEndian(1, 4) + BigEndian(|m.records|, 4);
    var head := FrameHeader(6, |Payload(m)|);
    HeaderSafe(|Payload(m)|);
    NameSafe(m.user);
    NumbersSafe(|m.records|);
    RecordsSafe(m.records);
    JoinSafe(head, user);
    JoinSafe(head + user, numbers);
    JoinSafe(head + user + numbers, RecordsBytes(m.records));
    FourParts(m);
  }

  lemma NumbersSafe(count: nat)
    ensures Safe(BigEndian(1, 4) + BigEndian(1, 4) + BigEndian(count, 4))
  {
    hide BigEndian, Safe;
    SmallWidths();
    FirstByte(1, 4);
    ShortSafe(BigEndian(1, 4) + BigEndian(1, 4) + BigEndian(count, 4));
  }

  lemma FourParts(m: Message)
    requires m.PollResponse? && m.listNum == 1 && m.totalList == 1
    ensures Frame(m)
         == FrameHeader(6, |Payload(m)|) + StringBytes(m.user)
            + (BigEndian(1, 4) + BigEndian(1, 4) + BigEndian(|m.records|, 4)) + RecordsBytes(m.records)
  {
    hide BigEndian, FrameHeader, StringBytes, RecordsBytes;
  }

  lemma {:induction false} FramesSafe(ms: seq<Message>)
    requires AreTexts(ms)
    ensures Safe(Frames(ms))
  {
    hide Safe, Frame, IsText;
    if ms == [] {
      NothingSafe();
    } else {
      assert IsText(ms[0]);
      FrameSafe(ms[0]);
      assert AreTexts(ms[1..]);
      FramesSafe(ms[1..]);
      JoinSafe(Frame(ms[0]), Frames(ms[1..]));
    }
  }

  /** Whatever texts follow a key text that is too short, the server does not take the two together for a key. */
  lemma TextsFillNoKey(pem: bytes, ms: seq<Message>)
    requires AreTexts(ms) && |pem| < ASYMMETRIC_LENGTH <= |pem + Frames(ms)|
    ensures !PemLayout((pem + Frames(ms))[..ASYMMETRIC_LENGTH])
  {
    hide Frame, Frames, AreTexts, Ascii;
    var behind := Frames(ms);
    var key := (pem + behind)[..ASYMMETRIC_LENGTH];
    FramesSafe(ms);
    if |pem| <= 247 {
      var p := 247 - |pem|;
      forall i | 0 <= i < 24
        ensures key[247..271][i] == behind[p..p + 24][i]
      {
        assert key[247 + i] == (pem + behind)[247 + i] == behind[p + i];
      }
      assert key[247..271] == behind[p..p + 24];
      assert !Occurs(behind, p);
    } else {
      FooterBytes(|pem| - 247);
      assert key[247..271][|pem| - 247] == key[|pem|] == (pem + behind)[|pem|] == behind[0];
    }
  }
}
