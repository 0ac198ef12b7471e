/** The public key as text: the client wraps the base64 body, the server demands one exact layout. */
module Pem {
  import opened Bytes
  import opened Messages

  const LINE := 64
  const NEWLINE: char := '\n'
  const KEY_FILE_HEADER := "-----BEGIN PUBLIC KEY-----"
  const KEY_FILE_FOOTER := "\n-----END PUBLIC KEY-----"

  /** How many line breaks the wrapping of `n` characters has. */
  function Breaks(n: nat): nat {
    (n + LINE - 1) / LINE
  }

  /** Where line break `k` stands. */
  function BreakPlace(k: nat): nat {
    (LINE + 1) * k
  }

  /** Where character `i` of the body ends up. */
  function Place(i: nat): nat {
    i + i / LINE + 1
  }

  /** The wrapped body: a line break in front of every 64 characters. */
  predicate IsWrapped(body: string, wrapped: string) {
    && |wrapped| == |body| + Breaks(|body|)
    && (forall k :: 0 <= k < Breaks(|body|) ==> BreakPlace(k) < |wrapped| && wrapped[BreakPlace(k)] == NEWLINE)
    && (forall i :: 0 <= i < |body| ==> Place(i) < |wrapped| && wrapped[Place(i)] == body[i])
  }

  /** The loop of calculateKey. */
  method Wrap(body: string) returns (pemCertPre: string)
    ensures IsWrapped(body, pemCertPre)
  {
    pemCertPre := "";
    for i := 0 to |body|
      invariant IsWrapped(body[..i], pemCertPre)
    {
      ghost var before := pemCertPre;
      if 0 == i % LINE {
        pemCertPre := pemCertPre + [NEWLINE];
      }
      pemCertPre := pemCertPre + [body[i]];
      assert before <= pemCertPre;
      assert forall j :: 0 <= j < i ==> body[..i][j] == body[j] == body[..i + 1][j];
    }
    assert body[..|body|] == body;
  }

  function Unwrap(text: string): string {
    if text == "" then ""
    else (if text[0] == NEWLINE then "" else [text[0]]) + Unwrap(text[1..])
  }

  lemma {:induction false} UnwrapAppend(a: string, b: string)
    ensures Unwrap(a + b) == Unwrap(a) + Unwrap(b)
  {
    if a == "" {
      assert a + b == b;
    } else {
      assert (a + b)[1..] == a[1..] + b;
      UnwrapAppend(a[1..], b);
    }
  }

  /** Leaving out the line breaks gives back the body, which determines the wrapped text. */
  lemma {:induction false} UnwrapWrapped(body: string, wrapped: string)
    requires IsWrapped(body, wrapped) && NEWLINE !in body
    ensures Unwrap(wrapped) == body
  {
    if body != "" {
      var n := |body| - 1;
      var cut := Place(n) - if n % LINE == 0 then 1 else 0;
      var front, tail := wrapped[..cut], wrapped[cut..];
      assert Place(n) == |wrapped| - 1;
      assert IsWrapped(body[..n], front);
      UnwrapWrapped(body[..n], front);
      UnwrapAppend(front, tail);
      assert wrapped == front + tail;
      if n % LINE == 0 {
        assert cut == BreakPlace(n / LINE);
        assert tail == [NEWLINE, body[n]];
      } else {
        assert tail == [body[n]];
      }
      LastCharacter(tail, body[n]);
      assert body == body[..n] + [body[n]];
    }
  }

  lemma LastCharacter(tail: string, c: char)
    requires c != NEWLINE && (tail == [c] || tail == [NEWLINE, c])
    ensures Unwrap(tail) == [c]
  {
    assert Unwrap([c]) == [c] + Unwrap("");
    if tail == [NEWLINE, c] {
      assert tail[1..] == [c];
    }
  }

  function KeyText(wrapped: string): string {
    KEY_FILE_HEADER + wrapped + KEY_FILE_FOOTER
  }

  /** What decodeKey cuts out of a key text. */
  function JustKey(key: string): string
    requires |key| >= |KEY_FILE_HEADER| + |KEY_FILE_FOOTER|
  {
    key[|KEY_FILE_HEADER|..|key| - |KEY_FILE_FOOTER|]
  }

  /** What the client cuts out of a key text and reads without its line breaks is the body. */
  lemma KeyTextUnwraps(body: string, wrapped: string)
    requires IsWrapped(body, wrapped) && NEWLINE !in body
    ensures Unwrap(JustKey(KeyText(wrapped))) == body
  {
    UnwrapWrapped(body, wrapped);
    assert JustKey(KeyText(wrapped)) == wrapped;
  }

  /** The server takes the client's key text exactly when the body has 216 characters (a 1024-bit key). */
  lemma LayoutAccepted(body: string, wrapped: string)
    requires IsWrapped(body, wrapped)
    ensures PemLayout(Ascii(KeyText(wrapped))) <==> |body| == 216
    ensures |KeyText(wrapped)| == ASYMMETRIC_LENGTH <==> |body| == 216
  {
    var text := KeyText(wrapped);
    assert |KEY_FILE_HEADER| == 26 && |KEY_FILE_FOOTER| == 25;
    if |body| == 216 {
      assert |wrapped| == 220;
      assert BreakPlace(0) == 0 && BreakPlace(1) == 65 && BreakPlace(2) == 130 && BreakPlace(3) == 195;
      HeaderInPlace(wrapped);
      FooterInPlace(wrapped);
      assert text[91] == wrapped[65] && text[156] == wrapped[130] && text[221] == wrapped[195];
      assert text[246] == KEY_FILE_FOOTER[0];
    }
  }

  /** The first 271 characters of a longer key text are no key to the server either. */
  lemma LongerTextRefused(body: string, wrapped: string)
    requires IsWrapped(body, wrapped) && '-' !in body && |KeyText(wrapped)| > ASYMMETRIC_LENGTH
    ensures !PemLayout(Ascii(KeyText(wrapped))[..ASYMMETRIC_LENGTH])
  {
    var text := KeyText(wrapped);
    var key := Ascii(text)[..ASYMMETRIC_LENGTH];
    assert |KEY_FILE_HEADER| == 26 && |KEY_FILE_FOOTER| == 25;
    assert text[247] == (wrapped + KEY_FILE_FOOTER)[221];
    if |wrapped| > 221 {
      assert Place(217) == 221 && |body| > 217;
      assert text[247] == body[217] != '-';
    } else {
      assert text[247] == KEY_FILE_FOOTER[0];
    }
    assert key[247..271][0] == key[247] == Ascii(text)[247];
    assert ASYMMETRIC_FOOTER[..24][0] == '-' as int;
  }

  lemma HeaderInPlace(wrapped: string)
    requires |wrapped| == 220 && wrapped[0] == NEWLINE
    ensures |KeyText(wrapped)| == 271
    ensures Ascii(KeyText(wrapped))[..27] == ASYMMETRIC_HEADER
  {
    var text := KeyText(wrapped);
    var header := "-----BEGIN PUBLIC KEY-----\n";
    assert text[..27] == header by {
      assert text[..26] == KEY_FILE_HEADER && text[26] == NEWLINE;
      assert header[..26] == KEY_FILE_HEADER && header[26] == NEWLINE;
    }
    forall i | 0 <= i < 27
      ensures Ascii(text)[i] == Ascii(header)[i]
    {
      assert text[i] == text[..27][i];
    }
  }

  lemma FooterInPlace(wrapped: string)
    requires |wrapped| == 220
    ensures |KeyText(wrapped)| == 271
    ensures Ascii(KeyText(wrapped))[247..271] == ASYMMETRIC_FOOTER[..24]
  {
    var text := KeyText(wrapped);
    var footer := "-----END PUBLIC KEY-----\n";
    assert text[246..271] == KEY_FILE_FOOTER;
    assert KEY_FILE_FOOTER[1..] == footer[..24];
    forall i | 0 <= i < 24
      ensures Ascii(text)[247 + i] == Ascii(footer)[i]
    {
      assert text[247 + i] == text[246..271][i + 1] == KEY_FILE_FOOTER[1..][i] == footer[..24][i];
    }
  }
}
