/**
 * Counter with CBC-MAC as RFC 3610 defines it, for a length field of three
 * octets (L = 3), over whole 16-byte blocks and an arbitrary block cipher.
 */
module Ccm {
  import opened Basics

  type Block = b: seq<byte> | |b| == 16 witness seq(16, _ => 0)

  type Nonce = n: seq<byte> | |n| == 12 witness seq(12, _ => 0)

  /** The block cipher under one key. */
  type Cipher = Block -> Block

  function Reversed(b: Block): Block { seq(16, i requires 0 <= i < 16 => b[15 - i]) }

  function XorBits(a: nat, b: nat): nat {
    if a == 0 && b == 0 then 0 else (if a % 2 == b % 2 then 0 else 1) + 2 * XorBits(a / 2, b / 2)
  }

  lemma {:induction false} XorBelow(a: nat, b: nat, bound: nat)
    requires bound in {1, 2, 4, 8, 16, 32, 64, 128, 256} && a < bound && b < bound
    ensures XorBits(a, b) < bound
  {
    if bound > 1 {
      XorBelow(a / 2, b / 2, bound / 2);
    }
  }

  lemma {:induction false} XorBitsCancels(a: nat, b: nat)
    ensures XorBits(XorBits(a, b), b) == a
  {
    if a != 0 || b != 0 {
      XorBitsCancels(a / 2, b / 2);
      var x := XorBits(a, b);
      assert x % 2 == (if a % 2 == b % 2 then 0 else 1) && x / 2 == XorBits(a / 2, b / 2);
    }
  }

  function XorByte(a: byte, b: byte): byte {
    XorBelow(a, b, 256);
    XorBits(a, b)
  }

  function Xor(a: Block, b: Block): Block {
    seq(16, i requires 0 <= i < 16 => XorByte(a[i], b[i]))
  }

  lemma XorCancels(a: Block, b: Block)
    ensures Xor(Xor(a, b), b) == a
  {
    forall i | 0 <= i < 16
      ensures Xor(Xor(a, b), b)[i] == a[i]
    {
      XorBitsCancels(a[i], b[i]);
    }
  }

  /** The three low octets of n, most significant first. */
  function BigEndian3(n: nat): seq<byte> {
    [n / 65536 % 256, n / 256 % 256, n % 256]
  }

  /** A_i of section 2.3. */
  function CounterBlock(nonce: Nonce, i: nat): Block {
    [2] + nonce + BigEndian3(i)
  }

  /** B_0 of section 2.2, with M' = (M - 2) / 2. */
  function FirstBlock(nonce: Nonce, tagField: nat, adata: bool, length: nat): Block
    requires 1 <= tagField <= 7
  {
    [64 * (if adata then 1 else 0) + 8 * tagField + 2] + nonce + BigEndian3(length)
  }

  /** X_1 = E(B_0) and X_{i+1} = E(X_i xor B_i), from X_1 = x. */
  function MacChain(e: Cipher, x: Block, blocks: seq<Block>): Block {
    if blocks == [] then x
    else e(Xor(MacChain(e, x, blocks[..|blocks| - 1]), blocks[|blocks| - 1]))
  }

  /** Block i xor the encrypted counter i, for any sequence of counters. */
  function Stream(e: Cipher, counter: nat -> Block, blocks: seq<Block>): seq<Block> {
    seq(|blocks|, i requires 0 <= i < |blocks| => Xor(blocks[i], e(counter(i))))
  }

  function Counters(nonce: Nonce): nat -> Block { i => CounterBlock(nonce, i + 1) }

  /** Encryption and decryption of the message blocks, section 2.3. */
  function Crypt(e: Cipher, nonce: Nonce, blocks: seq<Block>): seq<Block> {
    Stream(e, Counters(nonce), blocks)
  }

  /** The authentication value before truncation: T xor S_0, sections 2.2 and 2.3. */
  function Tag(e: Cipher, nonce: Nonce, tagField: nat, extra: seq<Block>, plain: seq<Block>): Block
    requires 1 <= tagField <= 7
  {
    Xor(MacChain(e, e(FirstBlock(nonce, tagField, extra != [], 16 * |plain|)), extra + plain),
      e(CounterBlock(nonce, 0)))
  }

  lemma StreamCancels(e: Cipher, counter: nat -> Block, blocks: seq<Block>)
    ensures Stream(e, counter, Stream(e, counter, blocks)) == blocks
  {
    forall i | 0 <= i < |blocks|
      ensures Stream(e, counter, Stream(e, counter, blocks))[i] == blocks[i]
    {
      XorCancels(blocks[i], e(counter(i)));
    }
  }

  // ---------------------------------------------------------------- the counter increment

  /** Increment with carry from the last byte towards the first. */
  function Increment(s: seq<byte>): (r: seq<byte>)
    ensures |r| == |s|
  {
    if s == [] then []
    else
      var last := |s| - 1;
      if s[last] == 255 then Increment(s[..last]) + [0] else s[..last] + [s[last] + 1]
  }

  lemma {:induction false} ValueBelow(s: seq<byte>)
    ensures Value(s) < Power256(|s|)
  {
    if s != [] {
      ValueBelow(s[..|s| - 1]);
    }
  }

  /** The increment adds one to the big-endian number, modulo its width. */
  lemma {:induction false} IncrementAddsOne(s: seq<byte>)
    ensures Value(Increment(s)) == if Value(s) + 1 == Power256(|s|) then 0 else Value(s) + 1
  {
    ValueBelow(s);
    if s != [] {
      var front, last := s[..|s| - 1], s[|s| - 1];
      ValueBelow(front);
      IncrementAddsOne(front);
      var t := Increment(s);
      assert t[..|t| - 1] == if last == 255 then Increment(front) else front;
    }
  }

  lemma IncrementLast(s: seq<byte>, x: byte)
    ensures Increment(s + [x]) == if x == 255 then Increment(s) + [0] else s + [x + 1]
  {
    assert (s + [x])[..|s|] == s;
  }

  lemma IncrementThree(s: seq<byte>, x: byte, y: byte, z: byte)
    requires x < 255
    ensures Increment(s + [x, y, z])
            == if z < 255 then s + [x, y, z + 1] else if y < 255 then s + [x, y + 1, 0] else s + [x + 1, 0, 0]
  {
    hide Increment;
    assert s + [x, y, z] == s + [x] + [y] + [z];
    IncrementLast(s + [x] + [y], z);
    IncrementLast(s + [x], y);
    IncrementLast(s, x);
  }

  lemma BigEndian3Next(i: nat)
    requires i + 1 < 0x100_0000
    ensures var (x, y, z) := (i / 65536, i / 256 % 256, i % 256);
            && x <= 255 && (x == 255 ==> y < 255 || z < 255)
            && BigEndian3(i) == [x, y, z]
            && BigEndian3(i + 1)
               == if z < 255 then [x, y, z + 1] else if y < 255 then [x, y + 1, 0] else [x + 1, 0, 0]
  {
    var h := i / 256;
    assert i == 256 * h + i % 256 && h == 256 * (h / 256) + h % 256 && h / 256 == i / 65536;
    if i % 256 == 255 {
      assert (i + 1) / 256 == h + 1;
    }
  }

  /** The counter fits its three octets up to 65536, so the increment never carries into the nonce. */
  lemma CounterAdvances(nonce: Nonce, i: nat)
    requires i < 0xFF_0000
    ensures Increment(CounterBlock(nonce, i)) == CounterBlock(nonce, i + 1)
  {
    hide Increment, BigEndian3;
    BigEndian3Next(i);
    IncrementThree([2] + nonce, i / 65536, i / 256 % 256, i % 256);
  }
}
