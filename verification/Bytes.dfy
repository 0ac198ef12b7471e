/** Bytes, fixed-width integers in network byte order, and where byte strings sit inside a buffer. */
module Bytes {

  type byte = x: int | 0 <= x < 256
  type int32 = x: int | -0x8000_0000 <= x < 0x8000_0000
  type int64 = x: int | -0x8000_0000_0000_0000 <= x < 0x8000_0000_0000_0000
  type bytes = seq<byte>

  const INT_MAX: int := 0x7FFF_FFFF

  function Pow256(k: nat): (p: int)
    ensures p >= 1
    ensures k > 0 ==> p % 2 == 0
  {
    if k == 0 then 1 else 256 * Pow256(k - 1)
  }

  /** The `w` low-order bytes of `n`, most significant first; a negative `n` is in two's complement. */
  function BigEndian(n: int, w: nat): (bs: bytes)
    ensures |bs| == w
    decreases w
  {
    if w == 0 then [] else BigEndian(n / 256, w - 1) + [n % 256]
  }

  lemma {:induction false} SmallMultiple(turns: int, p: int)
    requires -p < turns * p < p
    ensures turns == 0
  {
    assert turns >= 1 ==> turns * p >= p;
    assert turns <= -1 ==> turns * p <= -p;
  }

  lemma {:induction false} QuotientIs(n: int, a: int, q: int, r: int)
    requires n == q * a + r && 0 <= r < a
    ensures n / a == q
  {
    var gap := n / a - q;
    assert n == n / a * a + n % a;
    assert gap * a == n / a * a - q * a;
    SmallMultiple(gap, a);
  }

  lemma {:induction false} ShiftTwice(n: int, p: int)
    requires p > 0
    ensures n / 256 / p == n / (256 * p)
  {
    var m := n / 256;
    var s, t := m / p, m % p;
    assert m == s * p + t;
    assert s * (256 * p) == 256 * (s * p);
    QuotientIs(n, 256 * p, s, 256 * t + n % 256);
  }

  /** Byte `i` is the number shifted right until that byte is the lowest one. */
  lemma {:induction false} BigEndianByte(n: int, w: nat, i: nat)
    requires i < w
    ensures BigEndian(n, w)[i] == n / Pow256(w - 1 - i) % 256
    decreases w
  {
    if i < w - 1 {
      BigEndianByte(n / 256, w - 1, i);
      ShiftTwice(n, Pow256(w - 2 - i));
    }
  }

  function Unsigned(bs: bytes): nat {
    if bs == [] then 0 else Unsigned(bs[..|bs| - 1]) * 256 + bs[|bs| - 1]
  }

  lemma {:induction false} UnsignedBound(bs: bytes)
    ensures Unsigned(bs) < Pow256(|bs|)
  {
    if bs != [] {
      UnsignedBound(bs[..|bs| - 1]);
    }
  }

  lemma {:induction false} UnsignedSplit(a: bytes, b: bytes)
    ensures Unsigned(a + b) == Unsigned(a) * Pow256(|b|) + Unsigned(b)
  {
    if b == [] {
      assert a + b == a;
    } else {
      var front, last := b[..|b| - 1], b[|b| - 1];
      UnsignedSplit(a, front);
      assert (a + b)[..|a + b| - 1] == a + front;
      assert Unsigned(a) * (256 * Pow256(|front|)) == 256 * (Unsigned(a) * Pow256(|front|));
    }
  }

  /** Two's complement reading of a byte string. */
  function Signed(bs: bytes): (n: int)
    ensures -Pow256(|bs|) <= 2 * n < 2 * Pow256(|bs|)
    ensures |bs| > 0 ==> 2 * n < Pow256(|bs|)
  {
    UnsignedBound(bs);
    var u := Unsigned(bs);
    if bs == [] || 2 * u < Pow256(|bs|) then u else u - Pow256(|bs|)
  }

  lemma {:induction false} BigEndianOfUnsigned(bs: bytes, turns: int)
    ensures BigEndian(Unsigned(bs) + turns * Pow256(|bs|), |bs|) == bs
  {
    if bs != [] {
      var front, last := bs[..|bs| - 1], bs[|bs| - 1];
      var n := Unsigned(bs) + turns * Pow256(|bs|);
      var m := Unsigned(front) + turns * Pow256(|front|);
      assert n == 256 * m + last by {
        assert turns * (256 * Pow256(|front|)) == 256 * (turns * Pow256(|front|));
      }
      assert n / 256 == m && n % 256 == last;
      BigEndianOfUnsigned(front, turns);
    }
  }

  lemma {:induction false} Regroup(n: int, turns: int, p: int)
    ensures 256 * (n / 256 + turns * p) + n % 256 == n + turns * (256 * p)
  {
    assert turns * (256 * p) == 256 * (turns * p);
  }

  lemma {:induction false} UnsignedOfBigEndian(n: int, w: nat) returns (turns: int)
    ensures Unsigned(BigEndian(n, w)) == n + turns * Pow256(w)
    decreases w
  {
    if w == 0 {
      turns := -n;
    } else {
      turns := UnsignedOfBigEndian(n / 256, w - 1);
      var front := BigEndian(n / 256, w - 1);
      assert Unsigned(front + [n % 256]) == Unsigned(front) * 256 + n % 256 by {
        assert (front + [n % 256])[..w - 1] == front;
      }
      Regroup(n, turns, Pow256(w - 1));
    }
  }

  /** Writing and reading a fixed-width integer are inverse on the integers of that width ... */
  lemma {:induction false} SignedOfBigEndian(n: int, w: nat)
    requires w > 0 && -Pow256(w) <= 2 * n < Pow256(w)
    ensures Signed(BigEndian(n, w)) == n
  {
    var bs := BigEndian(n, w);
    var turns := UnsignedOfBigEndian(n, w);
    UnsignedBound(bs);
    var p := Pow256(w);
    if n >= 0 {
      SmallMultiple(turns, p);
    } else {
      assert (turns - 1) * p == turns * p - p;
      SmallMultiple(turns - 1, p);
    }
  }

  /** ... and on the byte strings of that width. */
  lemma {:induction false} BigEndianOfSigned(bs: bytes)
    ensures BigEndian(Signed(bs), |bs|) == bs
  {
    BigEndianOfUnsigned(bs, 0);
    BigEndianOfUnsigned(bs, -1);
  }

  lemma {:induction false} Widths()
    ensures Pow256(4) == 0x1_0000_0000
    ensures Pow256(8) == 0x1_0000_0000_0000_0000
  {
    assert Pow256(2) == 0x1_0000;
    assert Pow256(4) == 256 * (256 * Pow256(2));
    assert Pow256(6) == 256 * (256 * Pow256(4));
    assert Pow256(8) == 256 * (256 * Pow256(6));
  }

  function ReadInt32(bs: bytes): (n: int32)
    requires |bs| == 4
  {
    Widths();
    Signed(bs)
  }

  function ReadInt64(bs: bytes): (n: int64)
    requires |bs| == 8
  {
    Widths();
    Signed(bs)
  }

  lemma {:induction false} Int32Codec(bs: bytes, n: int32)
    requires |bs| == 4
    ensures ReadInt32(bs) == n <==> bs == BigEndian(n, 4)
  {
    Widths();
    SignedOfBigEndian(n, 4);
    BigEndianOfSigned(bs);
  }

  lemma {:induction false} Int64Codec(bs: bytes, n: int64)
    requires |bs| == 8
    ensures ReadInt64(bs) == n <==> bs == BigEndian(n, 8)
  {
    Widths();
    SignedOfBigEndian(n, 8);
    BigEndianOfSigned(bs);
  }

  lemma FirstByte(n: int, w: nat)
    requires w > 0 && 0 <= n < Pow256(w - 1)
    ensures BigEndian(n, w)[0] == 0
  {
    BigEndianByte(n, w, 0);
    QuotientIs(n, Pow256(w - 1), 0, n);
  }

  lemma SmallWidths()
    ensures Pow256(3) == 0x100_0000 && Pow256(7) == 0x100_0000_0000_0000
  {
    Widths();
    assert Pow256(4) == 256 * Pow256(3) && Pow256(8) == 256 * Pow256(7);
  }

  /** `field` is what buffer `b` holds from `pos` on. */
  predicate At(b: bytes, pos: nat, field: bytes) {
    pos + |field| <= |b| && b[pos..pos + |field|] == field
  }

  lemma {:induction false} AtSplit(b: bytes, pos: nat, x: bytes, y: bytes)
    ensures At(b, pos, x + y) <==> At(b, pos, x) && At(b, pos + |x|, y)
  {
    if pos + |x| + |y| <= |b| {
      var whole := b[pos..pos + |x| + |y|];
      assert whole[..|x|] == b[pos..pos + |x|];
      assert whole[|x|..] == b[pos + |x|..pos + |x| + |y|];
      assert (x + y)[..|x|] == x && (x + y)[|x|..] == y;
    }
  }

  function Flatten<T>(parts: seq<seq<T>>): seq<T> {
    if parts == [] then [] else parts[0] + Flatten(parts[1..])
  }

  lemma {:induction false} FlattenAppend<T>(a: seq<seq<T>>, b: seq<seq<T>>)
    ensures Flatten(a + b) == Flatten(a) + Flatten(b)
  {
    if a == [] {
      assert a + b == b;
    } else {
      assert (a + b)[1..] == a[1..] + b;
      FlattenAppend(a[1..], b);
    }
  }

  /** Java's US-ASCII encoder: a character outside the set becomes a question mark. */
  function Ascii(s: string): (bs: bytes)
    ensures |bs| == |s|
  {
    seq(|s|, i requires 0 <= i < |s| => if s[i] as int < 128 then s[i] as int else '?' as int)
  }

  /** Java's US-ASCII decoder: a byte outside the set becomes the replacement character. */
  function FromAscii(bs: bytes): (s: string)
    ensures |s| == |bs|
  {
    seq(|bs|, i requires 0 <= i < |bs| => if bs[i] < 128 then bs[i] as char else '\U{FFFD}')
  }

  predicate IsAscii(s: string) {
    forall i :: 0 <= i < |s| ==> s[i] as int < 128
  }

  lemma AsciiAt(s: string, i: nat)
    requires i < |s|
    ensures s[i] as int < 128 ==> Ascii(s)[i] == s[i] as int && FromAscii(Ascii(s))[i] == s[i]
    ensures s[i] as int >= 128 ==> Ascii(s)[i] == 63
  {
  }

  lemma FromAsciiAt(bs: bytes, i: nat)
    requires i < |bs|
    ensures FromAscii(bs)[i] == if bs[i] < 128 then bs[i] as char else '\U{FFFD}'
  {
  }

  /** A text survives the two conversions exactly when it is pure ASCII. */
  lemma AsciiRoundTrip(s: string)
    ensures FromAscii(Ascii(s)) == s <==> IsAscii(s)
  {
    if !IsAscii(s) {
      var i :| 0 <= i < |s| && s[i] as int >= 128;
      assert FromAscii(Ascii(s))[i] == '?' != s[i];
    }
  }

  /** No other bytes read as a given ASCII text. */
  lemma OnlyAsciiReadsAs(bs: bytes, s: string)
    requires IsAscii(s)
    ensures FromAscii(bs) == s <==> bs == Ascii(s)
  {
    AsciiRoundTrip(s);
    if FromAscii(bs) == s {
      forall i | 0 <= i < |bs|
        ensures bs[i] == Ascii(s)[i]
      {
        assert FromAscii(bs)[i] == s[i];
      }
    }
  }

  function Reversed(bs: bytes): (r: bytes)
    ensures |r| == |bs|
  {
    seq(|bs|, i requires 0 <= i < |bs| => bs[|bs| - 1 - i])
  }
}
