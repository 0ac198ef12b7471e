/**
 Cipher block chaining over an abstract block permutation (section 6.2 of NIST SP 800-38A) with the
 padding of section 6.3 of RFC 5652, and the stateful ciphers the Java client feeds piece by piece.
 */
module Cbc {
  import opened Wrappers
  import opened Bytes

  const BLOCK := 16

  type Block = b: bytes | |b| == BLOCK witness seq(BLOCK, _ => 0)

  /** The permutation of one block under a key, and its inverse. */
  datatype BlockCipher = BlockCipher(enc: (bytes, Block) -> Block, dec: (bytes, Block) -> Block)

  /** A cipher set up with a key and a first vector. */
  datatype Setup = Setup(c: BlockCipher, key: bytes, iv: Block)

  ghost predicate Inverts(c: BlockCipher, key: bytes) {
    forall b: Block :: c.dec(key, c.enc(key, b)) == b
  }

  function Pow2(k: nat): (p: nat)
    ensures p > 0
  {
    if k == 0 then 1 else 2 * Pow2(k - 1)
  }

  function XorBits(x: nat, y: nat, bits: nat): (r: nat)
    ensures r < Pow2(bits)
    decreases bits
  {
    if bits == 0 then 0 else (x % 2 + y % 2) % 2 + 2 * XorBits(x / 2, y / 2, bits - 1)
  }

  lemma LowBit(a: nat, b: nat)
    requires a < 2 && b < 2
    ensures ((a + b) % 2 + b) % 2 == a
  {
  }

  lemma HighAndLow(low: nat, high: nat)
    requires low < 2
    ensures (low + 2 * high) / 2 == high && (low + 2 * high) % 2 == low
  {
  }

  lemma {:induction false} XorBitsTwice(x: nat, y: nat, bits: nat)
    requires x < Pow2(bits)
    ensures XorBits(XorBits(x, y, bits), y, bits) == x
    decreases bits
  {
    if bits > 0 {
      var high := XorBits(x / 2, y / 2, bits - 1);
      var low := (x % 2 + y % 2) % 2;
      HighAndLow(low, high);
      XorBitsTwice(x / 2, y / 2, bits - 1);
      LowBit(x % 2, y % 2);
      HighAndLow(x % 2, x / 2);
    }
  }

  /** Bit `i` of a number. */
  function Bit(x: nat, i: nat): nat {
    x / Pow2(i) % 2
  }

  lemma {:induction false} HalfBit(x: nat, i: nat)
    ensures Bit(x, i + 1) == Bit(x / 2, i)
  {
    var p, q := Pow2(i), x / 2 / Pow2(i);
    var r := x / 2 - q * p;
    assert x / 2 == q * p + r && 0 <= r < p by {
      assert x / 2 == p * (x / 2 / p) + x / 2 % p;
    }
    assert q * (2 * p) == 2 * (q * p);
    QuotientIs(x, 2 * p, q, 2 * r + x % 2);
  }

  /** A bit of the result is set exactly if the two operands differ in that bit. */
  lemma {:induction false} XorBitsBit(x: nat, y: nat, bits: nat, i: nat)
    requires i < bits
    ensures Bit(XorBits(x, y, bits), i) == if Bit(x, i) != Bit(y, i) then 1 else 0
    decreases bits
  {
    hide Bit;
    var high, low := XorBits(x / 2, y / 2, bits - 1), (x % 2 + y % 2) % 2;
    HighAndLow(low, high);
    if i == 0 {
      LowestBit(XorBits(x, y, bits));
      LowestBit(x);
      LowestBit(y);
    } else {
      HalfBit(XorBits(x, y, bits), i - 1);
      HalfBit(x, i - 1);
      HalfBit(y, i - 1);
      XorBitsBit(x / 2, y / 2, bits - 1, i - 1);
    }
  }

  lemma LowestBit(x: nat)
    ensures Bit(x, 0) == x % 2
  {
  }

  lemma {:induction false} XorBitsSwap(x: nat, y: nat, bits: nat)
    ensures XorBits(x, y, bits) == XorBits(y, x, bits)
    decreases bits
  {
    if bits > 0 {
      XorBitsSwap(x / 2, y / 2, bits - 1);
    }
  }

  function XorByte(x: byte, y: byte): byte {
    assert Pow2(8) == 256;
    XorBits(x, y, 8)
  }

  function Xor(a: Block, b: Block): Block {
    seq(BLOCK, i requires 0 <= i < BLOCK => XorByte(a[i], b[i]))
  }

  /** Exclusive or: bit by bit of each byte, the operands differ or not. */
  lemma XorIs(a: Block, b: Block, i: nat, bit: nat)
    requires i < BLOCK && bit < 8
    ensures Bit(Xor(a, b)[i], bit) == if Bit(a[i], bit) != Bit(b[i], bit) then 1 else 0
  {
    hide XorBits, Bit;
    XorBitsBit(a[i], b[i], 8, bit);
  }

  lemma XorSwap(a: Block, b: Block)
    ensures Xor(a, b) == Xor(b, a)
  {
    hide XorBits;
    forall i | 0 <= i < BLOCK
      ensures Xor(a, b)[i] == Xor(b, a)[i]
    {
      XorBitsSwap(a[i], b[i], 8);
    }
  }

  lemma XorTwice(a: Block, b: Block)
    ensures Xor(Xor(a, b), b) == a
  {
    hide XorBits;
    assert Pow2(8) == 256;
    forall i | 0 <= i < BLOCK
      ensures Xor(Xor(a, b), b)[i] == a[i]
    {
      XorBitsTwice(a[i], b[i], 8);
    }
  }

  predicate Whole(data: bytes) {
    |data| % BLOCK == 0
  }

  function CbcEncrypt(c: BlockCipher, key: bytes, iv: Block, data: bytes): (r: bytes)
    requires Whole(data)
    ensures |r| == |data|
    decreases |data|
  {
    if data == [] then []
    else
      var y := c.enc(key, Xor(data[..BLOCK], iv));
      y + CbcEncrypt(c, key, y, data[BLOCK..])
  }

  function CbcDecrypt(c: BlockCipher, key: bytes, iv: Block, data: bytes): (r: bytes)
    requires Whole(data)
    ensures |r| == |data|
    decreases |data|
  {
    if data == [] then []
    else Xor(c.dec(key, data[..BLOCK]), iv) + CbcDecrypt(c, key, data[..BLOCK], data[BLOCK..])
  }

  lemma {:induction false} CbcInverse(c: BlockCipher, key: bytes, iv: Block, data: bytes)
    requires Whole(data) && Inverts(c, key)
    ensures CbcDecrypt(c, key, iv, CbcEncrypt(c, key, iv, data)) == data
    decreases |data|
  {
    if data != [] {
      var x: Block := data[..BLOCK];
      var y: Block := c.enc(key, Xor(x, iv));
      var tail := CbcEncrypt(c, key, y, data[BLOCK..]);
      assert (y + tail)[..BLOCK] == y && (y + tail)[BLOCK..] == tail;
      XorTwice(x, iv);
      CbcInverse(c, key, y, data[BLOCK..]);
    }
  }

  /** Block `k` of a whole number of blocks. */
  function BlockAt(data: bytes, k: nat): Block
    requires Whole(data) && BLOCK * (k + 1) <= |data|
  {
    data[BLOCK * k..BLOCK * (k + 1)]
  }

  /**
   Each block of the ciphertext is the permutation of a block of the text, combined with the block of the ciphertext
   before it, and the first one with the first vector.
   */
  lemma {:induction false} Chaining(c: BlockCipher, key: bytes, iv: Block, data: bytes, k: nat)
    requires Whole(data) && BLOCK * (k + 1) <= |data|
    ensures var y := CbcEncrypt(c, key, iv, data);
            BlockAt(y, k) == c.enc(key, Xor(BlockAt(data, k), if k == 0 then iv else BlockAt(y, k - 1)))
    decreases k
  {
    hide Xor;
    var first: Block := c.enc(key, Xor(data[..BLOCK], iv));
    var tail, y := CbcEncrypt(c, key, first, data[BLOCK..]), CbcEncrypt(c, key, iv, data);
    assert y == first + tail;
    assert BlockAt(y, 0) == first && BlockAt(data, 0) == data[..BLOCK];
    if k > 0 {
      Chaining(c, key, first, data[BLOCK..], k - 1);
      assert BlockAt(data[BLOCK..], k - 1) == BlockAt(data, k);
      assert BlockAt(tail, k - 1) == BlockAt(y, k);
      assert k > 1 ==> BlockAt(tail, k - 2) == BlockAt(y, k - 1);
    }
  }

  /** So the same text under another first vector starts differently. */
  lemma FirstVectorMatters(c: BlockCipher, key: bytes, iv: Block, iv': Block, data: bytes)
    requires Inverts(c, key) && iv != iv' && Whole(data) && data != []
    ensures BlockAt(CbcEncrypt(c, key, iv, data), 0) != BlockAt(CbcEncrypt(c, key, iv', data), 0)
  {
    hide Xor, CbcEncrypt;
    var x := BlockAt(data, 0);
    Chaining(c, key, iv, data, 0);
    Chaining(c, key, iv', data, 0);
    XorSwap(x, iv);
    XorSwap(x, iv');
    XorTwice(iv, x);
    XorTwice(iv', x);
    assert c.dec(key, c.enc(key, Xor(x, iv))) == Xor(x, iv);
    assert c.dec(key, c.enc(key, Xor(x, iv'))) == Xor(x, iv');
  }

  function Chained(iv: Block, data: bytes): Block
    requires Whole(data)
  {
    if data == [] then iv else data[|data| - BLOCK..]
  }

  lemma FirstBlock(c: BlockCipher, key: bytes, iv: Block, data: bytes)
    requires Whole(data) && data != []
    ensures CbcDecrypt(c, key, iv, data)
         == Xor(c.dec(key, data[..BLOCK]), iv) + CbcDecrypt(c, key, data[..BLOCK], data[BLOCK..])
  {
    hide Xor;
  }

  lemma NoBlock(c: BlockCipher, key: bytes, iv: Block)
    ensures CbcDecrypt(c, key, iv, []) == []
  {
  }

  lemma ChainedLater(iv: Block, a: bytes)
    requires Whole(a) && a != []
    ensures Chained(a[..BLOCK], a[BLOCK..]) == Chained(iv, a)
  {
  }

  /** Decryption may stop after any block and go on from the last block seen. */
  lemma {:induction false} CbcDecryptAppend(c: BlockCipher, key: bytes, iv: Block, a: bytes, b: bytes)
    requires Whole(a) && Whole(b)
    ensures Whole(a + b)
    ensures CbcDecrypt(c, key, iv, a + b) == CbcDecrypt(c, key, iv, a) + CbcDecrypt(c, key, Chained(iv, a), b)
    decreases |a|
  {
    hide CbcDecrypt, Xor;
    if a == [] {
      NoBlock(c, key, iv);
      assert a + b == b;
      assert [] + CbcDecrypt(c, key, iv, b) == CbcDecrypt(c, key, iv, b);
    } else {
      var x := Xor(c.dec(key, a[..BLOCK]), iv);
      assert (a + b)[..BLOCK] == a[..BLOCK] && (a + b)[BLOCK..] == a[BLOCK..] + b;
      FirstBlock(c, key, iv, a);
      FirstBlock(c, key, iv, a + b);
      CbcDecryptAppend(c, key, a[..BLOCK], a[BLOCK..], b);
      ChainedLater(iv, a);
      Regroup(x, CbcDecrypt(c, key, a[..BLOCK], a[BLOCK..]), CbcDecrypt(c, key, Chained(iv, a), b));
    }
  }

  lemma Regroup(x: bytes, y: bytes, z: bytes)
    ensures x + (y + z) == x + y + z
  {
  }

  lemma ThreeParts(c: BlockCipher, key: bytes, iv: Block, front: bytes, held: Block, chunk: Block)
    requires Whole(front)
    ensures CbcDecrypt(c, key, iv, front + held + chunk)
         == CbcDecrypt(c, key, iv, front) + CbcDecrypt(c, key, Chained(iv, front), held)
            + CbcDecrypt(c, key, held, chunk)
  {
    CbcDecryptAppend(c, key, iv, front, held);
    CbcDecryptAppend(c, key, iv, front + held, chunk);
    assert Chained(iv, front + held) == held;
  }

  function PadByte(plain: bytes): byte {
    BLOCK - |plain| % BLOCK
  }

  /** As many bytes as are missing to the next whole block, each with that number; a whole block more if none is. */
  function Pad(plain: bytes): (r: bytes)
    ensures Whole(r) && |plain| < |r| <= |plain| + BLOCK
    ensures r[..|plain|] == plain && forall i :: |plain| <= i < |r| ==> r[i] == |r| - |plain|
  {
    var p := PadByte(plain);
    plain + seq(p, _ => p)
  }

  function Unpad(data: bytes): Option<bytes> {
    if data == [] then None
    else
      var p := data[|data| - 1];
      if 1 <= p <= BLOCK && p <= |data| && data[|data| - p..] == seq(p, _ => p)
      then Some(data[..|data| - p])
      else None
  }

  lemma UnpadPad(plain: bytes)
    ensures Unpad(Pad(plain)) == Some(plain)
  {
    var p := PadByte(plain);
    var padded := Pad(plain);
    assert padded[|padded| - 1] == p;
    assert padded[|padded| - p..] == seq(p, _ => p);
    assert padded[..|padded| - p] == plain;
  }

  /** What can be taken off is exactly the padding: its bytes all tell its length. */
  lemma UnpadIs(data: bytes, plain: bytes)
    requires Whole(data)
    ensures Unpad(data) == Some(plain) <==> Pad(plain) == data
  {
    UnpadPad(plain);
    if Unpad(data) == Some(plain) {
      var p := data[|data| - 1];
      assert data == plain + seq(p, _ => p);
      assert p == PadByte(plain);
    }
  }

  /** What both programs send for a text: padding, then chaining from the fixed first vector. */
  function Encrypt(c: BlockCipher, key: bytes, iv: Block, plain: bytes): (r: bytes)
    ensures Whole(r) && |plain| < |r| <= |plain| + BLOCK
  {
    CbcEncrypt(c, key, iv, Pad(plain))
  }

  function Decrypt(c: BlockCipher, key: bytes, iv: Block, data: bytes): Option<bytes> {
    if data == [] || !Whole(data) then None else Unpad(CbcDecrypt(c, key, iv, data))
  }

  /** Whatever the length of the text, decryption gives back exactly that text. */
  lemma DecryptEncrypt(c: BlockCipher, key: bytes, iv: Block, plain: bytes)
    requires Inverts(c, key)
    ensures Decrypt(c, key, iv, Encrypt(c, key, iv, plain)) == Some(plain)
  {
    CbcInverse(c, key, iv, Pad(plain));
    UnpadPad(plain);
  }

  /** The padding is wholly in the last block. */
  lemma UnpadLast(front: bytes, last: Block)
    ensures Unpad(last).None? ==> Unpad(front + last).None?
    ensures Unpad(last).Some? ==> Unpad(front + last) == Some(front + Unpad(last).value)
  {
    var data := front + last;
    var p := last[BLOCK - 1];
    if 1 <= p <= BLOCK {
      assert data[|data| - p..] == last[BLOCK - p..];
      assert data[..|data| - p] == front + last[..BLOCK - p];
    }
  }

  /** A Java cipher in decryption mode: it keeps back the latest block, which may hold the padding. */
  class DecryptingCipher {
    const c: BlockCipher
    const key: bytes
    const iv: Block
    var chain: Block
    var held: bytes
    ghost var fed: bytes  // everything since the cipher was last reset

    ghost predicate Valid()
      reads this
    {
      && Whole(fed)
      && if fed == [] then held == [] && chain == iv
         else held == fed[|fed| - BLOCK..] && chain == Chained(iv, fed[..|fed| - BLOCK])
    }

    ghost predicate Fresh()
      reads this
    {
      Valid() && fed == []
    }

    /** What the calls since the last reset have released. */
    ghost function Released(): bytes
      requires Valid()
      reads this
    {
      if fed == [] then [] else CbcDecrypt(c, key, iv, fed[..|fed| - BLOCK])
    }

    constructor (c: BlockCipher, key: bytes, iv: Block)
      ensures this.c == c && this.key == key && this.iv == iv && Fresh()
    {
      this.c, this.key, this.iv := c, key, iv;
      chain, held, fed := iv, [], [];
    }

    method Update(chunk: Block) returns (out: bytes)
      requires Valid()
      modifies this
      ensures Valid() && fed == old(fed) + chunk
      ensures Released() == old(Released()) + out
    {
      if held == [] {
        out := [];
      } else {
        out := CbcDecrypt(c, key, chain, held);
        CbcDecryptAppend(c, key, iv, fed[..|fed| - BLOCK], held);
        assert fed == fed[..|fed| - BLOCK] + held;
        chain := held;
      }
      held := chunk;
      fed := fed + chunk;
      assert fed[..|fed| - BLOCK] == old(fed);
    }

    /** The block kept back and the final one. */
    method LastBlocks(chunk: Block) returns (out: bytes, last: Block)
      requires Valid()
      ensures CbcDecrypt(c, key, iv, fed + chunk) == Released() + out + last
    {
      hide CbcDecrypt;
      if held == [] {
        out, last := [], CbcDecrypt(c, key, chain, chunk);
        assert [] + chunk == chunk;
      } else {
        out, last := CbcDecrypt(c, key, chain, held), CbcDecrypt(c, key, held, chunk);
        ThreeParts(c, key, iv, fed[..|fed| - BLOCK], held, chunk);
        assert fed == fed[..|fed| - BLOCK] + held;
      }
    }

    /** `None` is the exception for bad padding, after which the cipher is of no further use. */
    method DoFinal(chunk: Block) returns (r: Option<bytes>)
      requires Valid()
      modifies this
      ensures var all := Unpad(CbcDecrypt(c, key, iv, old(fed) + chunk));
              if r.Some? then Fresh() && all == Some(old(Released()) + r.value) else all == None
    {
      hide CbcDecrypt, Unpad;
      ghost var released := Released();
      var out, last := LastBlocks(chunk);
      UnpadTail(released, out, last);
      var tail := Unpad(last);
      if tail.None? {
        return None;
      }
      chain, held, fed := iv, [], [];
      return Some(out + tail.value);
    }
  }

  lemma UnpadTail(released: bytes, out: bytes, last: Block)
    ensures Unpad(released + out + last)
         == if Unpad(last).None? then None else Some(released + (out + Unpad(last).value))
  {
    hide Unpad;
    UnpadLast(released + out, last);
    if Unpad(last).Some? {
      Regroup(released, out, Unpad(last).value);
    }
  }

  /** A Java cipher in encryption mode. `None` stands for the exception about offset and length. */
  class EncryptingCipher {
    const setup: Setup
    var chain: Block
    var held: bytes

    predicate Fresh()
      reads this
    {
      chain == setup.iv && held == []
    }

    constructor (setup: Setup)
      ensures this.setup == setup && Fresh()
    {
      this.setup := setup;
      chain, held := setup.iv, [];
    }

    /** What has been kept back and `length` characters from `offset` on. */
    function Input(chunk: bytes, offset: nat, length: nat): bytes
      requires offset + length <= |chunk|
      reads this
    {
      held + chunk[offset..offset + length]
    }

    /** Releases the whole blocks and keeps back the rest. */
    method Update(chunk: bytes, offset: nat, length: nat) returns (r: Option<bytes>)
      modifies this
      ensures r.Some? <==> offset + length <= |chunk|
      ensures r.Some? ==>
                var input := old(Input(chunk, offset, length));
                && Whole(r.value) && |r.value| + |held| == |input| && |held| < BLOCK
                && r.value == CbcEncrypt(setup.c, setup.key, old(chain), input[..|r.value|])
                && held == input[|r.value|..] && chain == Chained(old(chain), r.value)
      ensures r.None? ==> chain == old(chain) && held == old(held)
    {
      if offset + length > |chunk| {
        return None;
      }
      var input := Input(chunk, offset, length);
      var whole := |input| - |input| % BLOCK;
      var out := CbcEncrypt(setup.c, setup.key, chain, input[..whole]);
      chain, held := Chained(chain, out), input[whole..];
      return Some(out);
    }

    /** Encrypts the rest with its padding and starts over. */
    method DoFinal(chunk: bytes, offset: nat, length: nat) returns (r: Option<bytes>)
      modifies this
      ensures r.Some? <==> offset + length <= |chunk|
      ensures r.Some? ==> Fresh() && r.value == old(Encrypt(setup.c, setup.key, chain, Input(chunk, offset, length)))
      ensures r.None? ==> chain == old(chain) && held == old(held)
    {
      if offset + length > |chunk| {
        return None;
      }
      var out := CbcEncrypt(setup.c, setup.key, chain, Pad(Input(chunk, offset, length)));
      chain, held := setup.iv, [];
      return Some(out);
    }
  }
}
