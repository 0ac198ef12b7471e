/** The password check: one hash printed by a number formatter, the other by a loop over its bytes. */
module Hashing {
  import opened Bytes

  const DIGEST := 32

  function HexDigit(d: nat): char
    requires d < 16
  {
    "0123456789abcdef"[d]
  }

  /** Two digits for each byte. */
  function HexBytes(bs: bytes): (s: string)
    ensures |s| == 2 * |bs|
  {
    if bs == [] then ""
    else HexBytes(bs[..|bs| - 1]) + [HexDigit(bs[|bs| - 1] / 16), HexDigit(bs[|bs| - 1] % 16)]
  }

  /** A number in hexadecimal, without leading zeros. */
  function Hex(n: nat): string {
    if n < 16 then [HexDigit(n)] else Hex(n / 16) + [HexDigit(n % 16)]
  }

  function PadZeros(s: string, width: nat): string {
    if |s| >= width then s else seq(width - |s|, _ => '0') + s
  }

  /** String.format("%064x", new BigInteger(1, digest)), for any width. */
  function Format(digest: bytes, width: nat): string {
    PadZeros(Hex(Unsigned(digest)), width)
  }

  function Pow16(k: nat): nat {
    if k == 0 then 1 else 16 * Pow16(k - 1)
  }

  lemma {:induction false} TwoDigits(k: nat)
    ensures Pow256(k) == Pow16(2 * k)
  {
    if k > 0 {
      TwoDigits(k - 1);
      assert Pow16(2 * k) == 16 * (16 * Pow16(2 * k - 2));
    }
  }

  /** Exactly `width` digits, zeros included. */
  function Digits(n: nat, width: nat): (s: string)
    ensures |s| == width
    decreases width
  {
    if width == 0 then "" else Digits(n / 16, width - 1) + [HexDigit(n % 16)]
  }

  lemma {:induction false} ZeroDigits(width: nat)
    ensures Digits(0, width) == seq(width, _ => '0')
  {
    if width > 0 {
      ZeroDigits(width - 1);
    }
  }

  lemma {:induction false} PaddedIsDigits(n: nat, width: nat)
    requires width > 0 && n < Pow16(width)
    ensures PadZeros(Hex(n), width) == Digits(n, width)
    decreases width
  {
    if n < 16 {
      ZeroDigits(width - 1);
      assert Digits(n, width) == Digits(0, width - 1) + [HexDigit(n)];
      assert seq(width - 1, _ => '0') + [HexDigit(n)] == PadZeros([HexDigit(n)], width);
    } else {
      PaddedIsDigits(n / 16, width - 1);
      var h := Hex(n / 16);
      assert PadZeros(h + [HexDigit(n % 16)], width) == PadZeros(h, width - 1) + [HexDigit(n % 16)];
    }
  }

  lemma DigitsStep(high: nat, low: nat, width: nat)
    requires low < 16 && width > 0
    ensures Digits(16 * high + low, width) == Digits(high, width - 1) + [HexDigit(low)]
  {
    assert (16 * high + low) / 16 == high && (16 * high + low) % 16 == low;
  }

  lemma {:induction false} DigitsOfBytes(bs: bytes)
    ensures Digits(Unsigned(bs), 2 * |bs|) == HexBytes(bs)
  {
    hide Digits, HexDigit;
    if bs == [] {
      DigitsOfNothing();
    } else {
      var front, last := bs[..|bs| - 1], bs[|bs| - 1];
      var u := Unsigned(front);
      DigitsOfBytes(front);
      DigitsStep(u * 16 + last / 16, last % 16, 2 * |bs|);
      DigitsStep(u, last / 16, 2 * |bs| - 1);
      assert Unsigned(bs) == 16 * (u * 16 + last / 16) + last % 16;
    }
  }

  lemma DigitsOfNothing()
    ensures Digits(0, 0) == ""
  {
  }

  /** Formatting the digest as one number and printing it byte by byte give the same text, for every digest. */
  lemma HexAgreement(digest: bytes)
    requires digest != []
    ensures Format(digest, 2 * |digest|) == HexBytes(digest)
  {
    UnsignedBound(digest);
    TwoDigits(|digest|);
    PaddedIsDigits(Unsigned(digest), 2 * |digest|);
    DigitsOfBytes(digest);
  }

  lemma HexDigitInjective(a: nat, b: nat)
    requires a < 16 && b < 16 && HexDigit(a) == HexDigit(b)
    ensures a == b
  {
  }

  lemma LastTwo(a: string, b: string, p: char, q: char, r: char, t: char)
    requires |a| == |b| && a + [p, q] == b + [r, t]
    ensures a == b && p == r && q == t
  {
    assert (a + [p, q])[..|a|] == a && (b + [r, t])[..|b|] == b;
    assert (a + [p, q])[|a|..] == [p, q] && (b + [r, t])[|b|..] == [r, t];
    assert [p, q][0] == [r, t][0] && [p, q][1] == [r, t][1];
  }

  lemma {:induction false} HexBytesInjective(a: bytes, b: bytes)
    requires HexBytes(a) == HexBytes(b)
    ensures a == b
  {
    hide HexDigit;
    assert |a| == |b|;
    if a != [] {
      var n := |a| - 1;
      LastTwo(HexBytes(a[..n]), HexBytes(b[..n]), HexDigit(a[n] / 16), HexDigit(a[n] % 16), HexDigit(b[n] / 16),
              HexDigit(b[n] % 16));
      HexDigitInjective(a[n] / 16, b[n] / 16);
      HexDigitInjective(a[n] % 16, b[n] % 16);
      HexBytesInjective(a[..n], b[..n]);
      assert a == a[..n] + [a[n]] && b == b[..n] + [b[n]];
    }
  }

  /** Digit by digit. */
  lemma {:induction false} HexBytesAt(bs: bytes, i: nat)
    requires i < |bs|
    ensures HexBytes(bs)[2 * i] == "0123456789abcdef"[bs[i] / 16]
    ensures HexBytes(bs)[2 * i + 1] == "0123456789abcdef"[bs[i] % 16]
  {
    var n := |bs| - 1;
    if i < n {
      HexBytesAt(bs[..n], i);
    }
  }

  /** The printing loop: each step leaves two digits and a terminator the next step overwrites. */
  method PrintDigest(hash: bytes, outputBuffer: array<char>)
    requires |hash| == DIGEST && outputBuffer.Length == 2 * DIGEST + 1
    modifies outputBuffer
    ensures outputBuffer[..] == HexBytes(hash) + ['\0']
  {
    for i := 0 to DIGEST
      invariant outputBuffer[..2 * i] == HexBytes(hash[..i])
    {
      assert hash[..i + 1][..i] == hash[..i];
      outputBuffer[2 * i] := HexDigit(hash[i] / 16);
      outputBuffer[2 * i + 1] := HexDigit(hash[i] % 16);
      outputBuffer[2 * i + 2] := '\0';
      assert outputBuffer[..2 * i + 2] == outputBuffer[..2 * i] + [outputBuffer[2 * i], outputBuffer[2 * i + 1]];
    }
    outputBuffer[2 * DIGEST] := '\0';
    assert hash[..DIGEST] == hash;
    assert outputBuffer[..] == outputBuffer[..2 * DIGEST] + [outputBuffer[2 * DIGEST]];
  }

  /** The three loops that lay challenge, nonce and password end to end. */
  method Concatenate(challenge: bytes, nonce: bytes, password: bytes) returns (concatenateMe: array<byte>)
    ensures fresh(concatenateMe) && concatenateMe[..] == challenge + nonce + password
  {
    var sizeConc := |challenge| + |password| + |nonce|;
    concatenateMe := new byte[sizeConc];
    for i := 0 to |challenge|
      invariant forall k :: 0 <= k < i ==> concatenateMe[k] == challenge[k]
    {
      concatenateMe[i] := challenge[i];
    }
    var j := 0;
    for i := |challenge| to |challenge| + |nonce|
      invariant j == i - |challenge|
      invariant forall k :: 0 <= k < i ==> concatenateMe[k] == (challenge + nonce)[k]
    {
      concatenateMe[i] := nonce[j];
      j := j + 1;
    }
    j := 0;
    for i := |challenge| + |nonce| to sizeConc
      invariant j == i - |challenge| - |nonce|
      invariant forall k :: 0 <= k < i ==> concatenateMe[k] == (challenge + nonce + password)[k]
    {
      concatenateMe[i] := password[j];
      j := j + 1;
    }
  }

  type Digest = bytes -> bytes

  ghost predicate IsDigest(sha: Digest) {
    forall b :: |sha(b)| == DIGEST
  }

  function ServerHash(sha: Digest, challenge: bytes, nonce: bytes, password: bytes): string {
    HexBytes(sha(challenge + nonce + password))
  }

  function ClientHash(sha: Digest, challenge: bytes, nonce: int64, password: bytes): string {
    Format(sha(challenge + BigEndian(nonce, 8) + password), 2 * DIGEST)
  }

  /**
   The client's hash, over the nonce as a number, and the server's, over the nonce as the bytes that
   crossed the wire, are the same text exactly when the two digests are equal; equal passwords are enough.
   */
  lemma HashAgreement(sha: Digest, challenge: bytes, nonce: int64, typed: bytes, stored: bytes)
    requires IsDigest(sha)
    ensures ClientHash(sha, challenge, nonce, typed) == ServerHash(sha, challenge, BigEndian(nonce, 8), stored)
      <==> sha(challenge + BigEndian(nonce, 8) + typed) == sha(challenge + BigEndian(nonce, 8) + stored)
    ensures typed == stored ==>
              ClientHash(sha, challenge, nonce, typed) == ServerHash(sha, challenge, BigEndian(nonce, 8), stored)
  {
    hide BigEndian, HexBytes, Format;
    var mine := sha(challenge + BigEndian(nonce, 8) + typed);
    var theirs := sha(challenge + BigEndian(nonce, 8) + stored);
    HexAgreement(mine);
    if HexBytes(mine) == HexBytes(theirs) {
      HexBytesInjective(mine, theirs);
    }
  }

  lemma {:induction false} HexIsAscii(bs: bytes)
    ensures IsAscii(HexBytes(bs))
  {
    if bs != [] {
      HexIsAscii(bs[..|bs| - 1]);
    }
  }

  /** The two texts may be compared as bytes. */
  lemma HashBytesAgree(sha: Digest, challenge: bytes, nonce: int64, typed: bytes, stored: bytes)
    requires IsDigest(sha)
    ensures Ascii(ClientHash(sha, challenge, nonce, typed))
        == Ascii(ServerHash(sha, challenge, BigEndian(nonce, 8), stored))
      <==> ClientHash(sha, challenge, nonce, typed) == ServerHash(sha, challenge, BigEndian(nonce, 8), stored)
  {
    hide BigEndian, HexBytes, Format, Ascii, FromAscii;
    var mine, theirs := ClientHash(sha, challenge, nonce, typed),
        ServerHash(sha, challenge, BigEndian(nonce, 8), stored);
    HexAgreement(sha(challenge + BigEndian(nonce, 8) + typed));
    HexIsAscii(sha(challenge + BigEndian(nonce, 8) + typed));
    HexIsAscii(sha(challenge + BigEndian(nonce, 8) + stored));
    AsciiRoundTrip(mine);
    AsciiRoundTrip(theirs);
  }
}
