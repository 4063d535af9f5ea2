/**
 * Whole transfers in terms of the registers and the control word alone: which
 * bytes are the key, the nonce and the counts, what stands in every octet of the
 * first MAC block, and which bytes of the FIFO words make up a block.
 */
module AesSettings {
  import opened Basics
  import opened Ccm
  import opened AesEngine
  import opened AesTransfer
  import opened AesTheorems

  /** Block k of some FIFO words: the sixteen bytes backwards. */
  function WordBlock(words: seq<Word>, k: nat): Block
    requires 4 * k + 4 <= |words|
  {
    seq(16, i requires 0 <= i < 16 => words[4 * k + (15 - i) / 4][(15 - i) % 4])
  }

  /** The key of the selected slot if the control word applies it, else the one applied before, backwards. */
  function KeyBytes(regs: Registers, val: Control): Block
    requires val.Valid() && |regs.keyNormal| == 4
  {
    var key := if val.applyKey then regs.keyNormal[val.keySlot] else regs.curKey;
    seq(16, i requires 0 <= i < 16 => key[15 - i])
  }

  /** The low twelve bytes of the IV register, backwards. */
  function NonceBytes(iv: Block): seq<byte> { seq(12, i requires 0 <= i < 12 => iv[11 - i]) }

  /** Bit by bit, the exclusive or of two blocks. */
  lemma XorIsBitwise(a: Block, b: Block, i: nat, p: nat)
    requires i < 16 && p in {1, 2, 4, 8, 16, 32, 64, 128}
    ensures Xor(a, b)[i] / p % 2 == (a[i] / p % 2 + b[i] / p % 2) % 2
  {
    XorBitAt(a[i], b[i], p);
  }

  lemma XorBitsSplit(a: nat, b: nat)
    ensures XorBits(a, b) % 2 == (a % 2 + b % 2) % 2 && XorBits(a, b) / 2 == XorBits(a / 2, b / 2)
  {
    if a != 0 || b != 0 {
      DivisionUnique(XorBits(a, b), 2, XorBits(a / 2, b / 2), if a % 2 == b % 2 then 0 else 1);
    }
  }

  lemma {:induction false} XorBitAt(a: nat, b: nat, p: nat)
    requires p in {1, 2, 4, 8, 16, 32, 64, 128}
    ensures XorBits(a, b) / p % 2 == (a / p % 2 + b / p % 2) % 2
  {
    hide XorBits;
    XorBitsSplit(a, b);
    if p > 1 {
      assert p / 2 in {1, 2, 4, 8, 16, 32, 64};
      XorBitAt(a / 2, b / 2, p / 2);
      Halved(a, p);
      Halved(b, p);
      Halved(XorBits(a, b), p);
    }
  }

  lemma Halved(a: nat, p: nat)
    requires p in {2, 4, 8, 16, 32, 64, 128}
    ensures a / p == a / 2 / (p / 2)
  {
  }

  lemma BlockIsWords(words: seq<Word>, k: nat)
    requires 4 * k + 4 <= |words|
    ensures InputBlock(words, k) == WordBlock(words, k)
  {
    var four := words[4 * k..4 * k + 4];
    var d := Joined(four[0], four[1], four[2], four[3]);
    forall i | 0 <= i < 16
      ensures d[i] == words[4 * k + i / 4][i % 4]
    {
      assert i / 4 == 0 || i / 4 == 1 || i / 4 == 2 || i / 4 == 3;
    }
  }

  lemma SettingsOf(e: KeyedCipher, s: Engine, val: Control)
    requires Startable(s, val)
    ensures var t := TransferOf(e, s, val);
            && t.key == KeyBytes(s.regs, val) && NonceOf(t.iv) == NonceBytes(s.regs.iv)
            && t.iv == s.regs.iv && t.mode == val.mode && t.leftover == s.output && t.e == e
            && t.macLength == (if val.macSize == 0 then 1 else val.macSize)
            && t.extra == (if val.mode < 2 then s.regs.blkCnt % 65536 else 0)
            && t.blocks == s.regs.blkCnt / 65536
            && (t.Valid() <==> t.extra + t.blocks > 0)
  {
  }

  /** The chain value after each block, the first one being the start value. */
  function ChainValues(e: Cipher, x: Block, blocks: seq<Block>): (r: seq<Block>)
    ensures |r| == |blocks| + 1 && r[0] == x && r[|blocks|] == MacChain(e, x, blocks)
    ensures forall k :: 0 <= k < |blocks| ==> r[k + 1] == e(Xor(r[k], blocks[k]))
  {
    hide Xor;
    if blocks == [] then [x]
    else
      var n := |blocks| - 1;
      var front := ChainValues(e, x, blocks[..n]);
      front + [e(Xor(front[n], blocks[n]))]
  }

  /** The first block: the adata bit, the MAC size field and the length size, the nonce, the payload length in bytes. */
  function FirstOctets(nonce: seq<byte>, m: nat, a: nat, n: nat): Block
    requires |nonce| == 12 && 1 <= m < 8 && n < 65536
  {
    [2 + 8 * m + (if a > 0 then 64 else 0)] + nonce + [16 * n / 65536, 16 * n / 256 % 256, 16 * n % 256]
  }

  /** Counter block i: the length size, the nonce, and i in three octets. */
  function CounterOctets(nonce: seq<byte>, i: nat): Block
    requires |nonce| == 12 && i <= 65536
  {
    [2] + nonce + [i / 65536, i / 256 % 256, i % 256]
  }

  lemma OctetsAre(nonce: Nonce, m: nat, a: nat, n: nat, i: nat)
    requires 1 <= m < 8 && n < 65536 && i <= 65536
    ensures FirstOctets(nonce, m, a, n) == FirstBlock(nonce, m, a != 0, 16 * n)
    ensures CounterOctets(nonce, i) == CounterBlock(nonce, i)
  {
  }

  /** The CBC-MAC chain over some extra blocks and the blocks of plaintext. */
  predicate IsChain(
    e: KeyedCipher, key: Block, start: Block, extra: seq<Block>, plain: seq<Block>, chain: seq<Block>)
  {
    && |chain| == |extra| + |plain| + 1 && chain[0] == e(key, start)
    && (forall k :: 0 <= k < |extra| ==> chain[k + 1] == e(key, Xor(chain[k], extra[k])))
    && (forall k :: 0 <= k < |plain| ==> chain[|extra| + k + 1] == e(key, Xor(chain[|extra| + k], plain[k])))
  }

  lemma ChainFits(t: Transfer, start: Block, extra: seq<Block>, plain: seq<Block>) returns (chain: seq<Block>)
    ensures IsChain(t.e, t.key, start, extra, plain, chain)
    ensures chain[|extra| + |plain|] == MacChain(Enc(t), Enc(t)(start), extra + plain)
  {
    hide Xor, MacChain, ChainValues;
    var all := extra + plain;
    chain := ChainValues(Enc(t), Enc(t)(start), all);
    forall k | 0 <= k < |extra|
      ensures chain[k + 1] == t.e(t.key, Xor(chain[k], extra[k]))
    {
      assert all[k] == extra[k];
    }
    forall k | 0 <= k < |plain|
      ensures chain[|extra| + k + 1] == t.e(t.key, Xor(chain[|extra| + k], plain[k]))
    {
      assert all[|extra| + k] == plain[k];
    }
  }

  /** n blocks of the words, from block `from` on. */
  function WordBlocks(words: seq<Word>, from: nat, n: nat): (blocks: seq<Block>)
    requires 4 * (from + n) <= |words|
    ensures |blocks| == n
  {
    if n == 0 then [] else WordBlocks(words, from, n - 1) + [WordBlock(words, from + n - 1)]
  }

  lemma {:induction false} WordBlocksAt(words: seq<Word>, from: nat, n: nat, k: nat)
    requires 4 * (from + n) <= |words| && k < n
    ensures WordBlocks(words, from, n)[k] == WordBlock(words, from + k)
  {
    hide WordBlock;
    if k < n - 1 {
      WordBlocksAt(words, from, n - 1, k);
    }
  }

  lemma {:induction false} InputsAreWords(words: seq<Word>, from: nat, n: nat)
    requires 4 * (from + n) <= |words|
    ensures Inputs(words, from, n) == WordBlocks(words, from, n)
  {
    hide InputBlock, WordBlock;
    if n > 0 {
      InputsAreWords(words, from, n - 1);
      BlockIsWords(words, from + n - 1);
    }
  }

  /** The output words of some blocks, read as blocks. */
  lemma WordsAreBlocks(words: seq<Word>, blocks: seq<Block>)
    requires words == WordsOfAll(blocks)
    ensures WordBlocks(words, 0, |blocks|) == blocks
  {
    hide Inputs, WordsOfAll, WordBlocks;
    assert [] + WordsOfAll(blocks) + [] == words;
    InputsOfWords([], blocks, [], 0);
    InputsAreWords(words, 0, |blocks|);
  }

  lemma LastWordBlock(words: seq<Word>, n: nat)
    requires 4 * n + 4 <= |words|
    ensures WordBlocks(words, 0, n + 1) == WordBlocks(words, 0, n) + [WordBlock(words, n)]
  {
    hide WordBlock;
  }

  lemma WithTag(words: seq<Word>, blocks: seq<Block>, tag: Block)
    requires words == WordsOfAll(blocks) + WordsOf(tag)
    ensures |words| == 4 * |blocks| + 4
    ensures WordBlocks(words, 0, |blocks|) == blocks && WordBlock(words, |blocks|) == tag
  {
    hide WordsOfAll, WordsOf, WordBlock, WordBlocks;
    var n := |blocks|;
    WordsNext(blocks, tag);
    WordsAreBlocks(words, blocks + [tag]);
    LastWordBlock(words, n);
    assert (blocks + [tag])[..n] == blocks && (blocks + [tag])[n] == tag;
    assert WordBlocks(words, 0, n) == WordBlocks(words, 0, n + 1)[..n];
  }

  /** The blocks that counter mode makes of some blocks, with counters from 1 on. */
  function Masked(e: KeyedCipher, key: Block, nonce: seq<byte>, blocks: seq<Block>): seq<Block>
    requires |nonce| == 12 && |blocks| < 65536
  {
    seq(|blocks|, k requires 0 <= k < |blocks| => Xor(blocks[k], e(key, CounterOctets(nonce, k + 1))))
  }

  lemma MaskedLength(e: KeyedCipher, key: Block, nonce: seq<byte>, blocks: seq<Block>)
    requires |nonce| == 12 && |blocks| < 65536
    ensures |Masked(e, key, nonce, blocks)| == |blocks|
  {
  }

  lemma MaskedIsCrypt(t: Transfer, nonce: Nonce, blocks: seq<Block>)
    requires |blocks| < 65536
    ensures Crypt(Enc(t), nonce, blocks) == Masked(t.e, t.key, nonce, blocks)
  {
    hide CounterOctets, CounterBlock, Xor;
    forall k | 0 <= k < |blocks|
      ensures Crypt(Enc(t), nonce, blocks)[k] == Masked(t.e, t.key, nonce, blocks)[k]
    {
      OctetsAre(nonce, 1, 0, 0, k + 1);
    }
  }

  lemma TagIs(t: Transfer, nonce: Nonce, m: nat, extra: seq<Block>, plain: seq<Block>) returns (chain: seq<Block>)
    requires 1 <= m < 8 && |plain| < 65536
    ensures IsChain(t.e, t.key, FirstOctets(nonce, m, |extra|, |plain|), extra, plain, chain)
    ensures Tag(Enc(t), nonce, m, extra, plain)
            == Xor(chain[|extra| + |plain|], t.e(t.key, CounterOctets(nonce, 0)))
  {
    hide Xor, MacChain, FirstOctets, FirstBlock, CounterOctets, CounterBlock;
    OctetsAre(nonce, m, |extra|, |plain|, 0);
    chain := ChainFits(t, FirstOctets(nonce, m, |extra|, |plain|), extra, plain);
  }

  // ---------------------------------------------------------------- control writes

  /**
   * A write to the control register starts a transfer exactly if bit 31 is
   * written, none is running, and there is a block to do: any kind in the CCM
   * modes, a payload block in the counter modes.  Any other write only sets the
   * mode, clears bit 21, applies the key, and leaves bit 31 as written.
   */
  lemma StartsExactly(e: KeyedCipher, s: Engine, val: Control)
    requires val.Valid() && |s.regs.keyNormal| == 4 && s.regs.blkCnt < 0x1_0000_0000
    ensures var r := WriteControl(e, s, val);
            var curKey := if val.applyKey then s.regs.keyNormal[val.keySlot] else s.regs.curKey;
            && !r.macOk && r.mode == val.mode && r.regs == s.regs.(curKey := curKey)
            && r.input == s.input && r.output == s.output
            && (val.start && !s.busy ==>
                  && !r.outputMacDue
                  && (r.busy <==> if val.mode < 2 then s.regs.blkCnt > 0 else s.regs.blkCnt >= 65536))
            && (s.busy || !val.start ==> r == s.(macOk := false, mode := val.mode, busy := val.start, regs := r.regs))
  {
    hide Reversed, NonceOf, FirstMacBlock;
  }

  /** A word written to an idle engine is queued, unless sixteen are waiting: then it is lost. */
  lemma IdleWriteQueues(e: KeyedCipher, s: Engine, w: Word)
    requires !s.busy && |s.input| <= 16
    ensures WriteInput(e, s, w) == s.(input := if |s.input| == 16 then s.input else s.input + [w])
  {
  }

  // ---------------------------------------------------------------- encryption

  /** Everything that came out of the engine, the words left over from before the start included. */
  function Emitted(o: Outcome): seq<Word> { o.taken + o.engine.output }

  /**
   * A finished encryption.  With a the low half and n the high half of the block
   * count: after the words left over come n blocks, each input block after the a
   * extra ones xored with the encrypted counter k + 1, and then one block, the end
   * of the chain over the extra blocks and the plaintext xored with the encrypted
   * counter zero.  The first block of the chain carries the MAC size field of the
   * control word, with 1 for 0.
   */
  lemma EncryptsBySettings(e: KeyedCipher, s: Engine, val: Control, events: seq<Event>) returns (chain: seq<Block>)
    requires Startable(s, val) && TransferRun(e, s, val, events).Some?
    requires val.mode == 1 && s.regs.blkCnt > 0
    requires !TransferRun(e, s, val, events).value.engine.busy
             && !TransferRun(e, s, val, events).value.engine.outputMacDue
    ensures var o := TransferRun(e, s, val, events).value;
            var (words, a, n) := (s.input + o.written, s.regs.blkCnt % 65536, s.regs.blkCnt / 65536);
            && 4 * (a + n) <= |words| && |Emitted(o)| == |s.output| + 4 * n + 4
            && var (key, nonce) := (KeyBytes(s.regs, val), NonceBytes(s.regs.iv));
            var m := if val.macSize == 0 then 1 else val.macSize;
            var (extra, plain, out) := (WordBlocks(words, 0, a), WordBlocks(words, a, n), Emitted(o)[|s.output|..]);
            && WordBlocks(out, 0, n) == Masked(e, key, nonce, plain)
            && IsChain(e, key, FirstOctets(nonce, m, a, n), extra, plain, chain)
            && WordBlock(out, n) == Xor(chain[a + n], e(key, CounterOctets(nonce, 0)))
  {
    hide Running, Done, Inv, WordsOfAll, WordsOf, Tag, Inputs, TransferRun, Crypt, WordBlocks, WordBlock, Xor, Masked;
    hide KeyBytes, NonceBytes, NonceOf, CounterOctets, FirstOctets, IsChain, TransferOf, Enc;
    SettingsOf(e, s, val);
    EncryptsAsRfc3610(e, s, val, events);
    var (t, o) := (TransferOf(e, s, val), TransferRun(e, s, val, events).value);
    var (words, nonce) := (s.input + o.written, NonceOf(t.iv));
    InputsAreWords(words, 0, t.extra);
    InputsAreWords(words, t.extra, t.blocks);
    var (extra, plain) := (WordBlocks(words, 0, t.extra), WordBlocks(words, t.extra, t.blocks));
    chain := TagIs(t, nonce, t.macLength, extra, plain);
    MaskedIsCrypt(t, nonce, plain);
    assert |Masked(e, t.key, nonce, plain)| == t.blocks by { MaskedLength(e, t.key, nonce, plain); }
    assert |Emitted(o)| >= |s.output|;
    assert Produced(s, o) == Emitted(o)[|s.output|..];
    WithTag(Emitted(o)[|s.output|..], Masked(e, t.key, nonce, plain), Tag(Enc(t), nonce, t.macLength, extra, plain));
  }
  /** The words left over from before the start come out first, and only a decryption sets bit 21. */
  lemma LeftoverFirst(e: KeyedCipher, s: Engine, val: Control, events: seq<Event>)
    requires Startable(s, val) && s.regs.blkCnt > 0 && (val.mode >= 2 ==> s.regs.blkCnt >= 65536)
    requires TransferRun(e, s, val, events).Some? && !TransferRun(e, s, val, events).value.engine.busy
    ensures s.output <= Emitted(TransferRun(e, s, val, events).value)
    ensures val.mode != 0 ==> !TransferRun(e, s, val, events).value.engine.macOk
  {
    hide Running, WordsOfAll, WordsOf, Output, TransferTag, TransferRun, Reversed, NonceOf;
    SettingsOf(e, s, val);
    EveryInterleaving(e, s, val, events);
  }

  // ---------------------------------------------------------------- decryption

  /**
   * A finished decryption: the n blocks that come out are the input blocks after
   * the a extra ones, xored with the encrypted counters, and bit 21 is set exactly
   * if the MAC registers hold, byte-reversed, the end of the chain over the extra
   * blocks and these n blocks, xored with the encrypted counter zero.
   */
  lemma DecryptsBySettings(e: KeyedCipher, s: Engine, val: Control, events: seq<Event>) returns (chain: seq<Block>)
    requires Startable(s, val) && TransferRun(e, s, val, events).Some?
    requires val.mode == 0 && s.regs.blkCnt > 0 && !TransferRun(e, s, val, events).value.engine.busy
    ensures var o := TransferRun(e, s, val, events).value;
            var (words, a, n) := (s.input + o.written, s.regs.blkCnt % 65536, s.regs.blkCnt / 65536);
            && 4 * (a + n) <= |words| && |Emitted(o)| == |s.output| + 4 * n
            && var (key, nonce) := (KeyBytes(s.regs, val), NonceBytes(s.regs.iv));
            var m := if val.macSize == 0 then 1 else val.macSize;
            var plain := WordBlocks(Emitted(o)[|s.output|..], 0, n);
            && plain == Masked(e, key, nonce, WordBlocks(words, a, n))
            && IsChain(e, key, FirstOctets(nonce, m, a, n), WordBlocks(words, 0, a), plain, chain)
            && var tag := Xor(chain[a + n], e(key, CounterOctets(nonce, 0)));
            o.engine.macOk <==> forall i :: 0 <= i < 16 ==> s.regs.mac[i] == tag[15 - i]
  {
    hide Running, Done, Inv, WordsOfAll, WordsOf, Tag, Inputs, TransferRun, Crypt, WordBlocks, WordBlock, Xor, Masked;
    hide KeyBytes, NonceBytes, NonceOf, CounterOctets, FirstOctets, IsChain, TransferOf, Enc;
    SettingsOf(e, s, val);
    DecryptsAsRfc3610(e, s, val, events);
    var (t, o) := (TransferOf(e, s, val), TransferRun(e, s, val, events).value);
    var (words, nonce) := (s.input + o.written, NonceOf(t.iv));
    InputsAreWords(words, 0, t.extra);
    InputsAreWords(words, t.extra, t.blocks);
    var (extra, sent) := (WordBlocks(words, 0, t.extra), WordBlocks(words, t.extra, t.blocks));
    MaskedIsCrypt(t, nonce, sent);
    MaskedLength(e, t.key, nonce, sent);
    var plain := Masked(e, t.key, nonce, sent);
    chain := TagIs(t, nonce, t.macLength, extra, plain);
    assert Produced(s, o) == Emitted(o)[|s.output|..];
    WordsAreBlocks(Emitted(o)[|s.output|..], plain);
    ReversedMeans(s.regs.mac, Tag(Enc(t), nonce, t.macLength, extra, plain));
  }

  lemma ReversedMeans(mac: Block, tag: Block)
    ensures mac == Reversed(tag) <==> forall i :: 0 <= i < 16 ==> mac[i] == tag[15 - i]
  {
    if forall i :: 0 <= i < 16 ==> mac[i] == tag[15 - i] {
      assert mac == Reversed(tag);
    }
  }

  // ---------------------------------------------------------------- counter mode

  lemma Power256Of16()
    ensures Power256(16) == 0x1_0000_0000_0000_0000_0000_0000_0000_0000
  {
    assert Power256(4) == 0x1_0000_0000;
    assert Power256(8) == 0x1_0000_0000_0000_0000;
    assert Power256(12) == 0x1_0000_0000_0000_0000_0000_0000;
  }

  /**
   * A finished transfer in one of the counter modes takes no extra blocks and
   * sends no authentication value: input block i comes out xored with the
   * encrypted counter, which is the byte-reversed IV register plus i modulo 2^128.
   */
  lemma CountsBySettings(e: KeyedCipher, s: Engine, val: Control, events: seq<Event>, i: nat) returns (counter: Block)
    requires Startable(s, val) && TransferRun(e, s, val, events).Some?
    requires val.mode >= 2 && !TransferRun(e, s, val, events).value.engine.busy && i < s.regs.blkCnt / 65536
    ensures var (o, n) := (TransferRun(e, s, val, events).value, s.regs.blkCnt / 65536);
            var words := s.input + o.written;
            && 4 * n <= |words| && |Emitted(o)| == |s.output| + 4 * n
            && WordBlock(Emitted(o)[|s.output|..], i) == Xor(WordBlock(words, i), e(KeyBytes(s.regs, val), counter))
    ensures Value(counter) == (Value(Reversed(s.regs.iv)) + i) % 0x1_0000_0000_0000_0000_0000_0000_0000_0000
  {
    hide Running, Done, Inv, WordsOfAll, WordsOf, Inputs, TransferRun, WordBlock, Xor, KeyBytes, NonceOf, TransferOf;
    hide Power256, Value, Advance, Reversed;
    SettingsOf(e, s, val);
    CounterMode(e, s, val, events, i);
    var (t, o) := (TransferOf(e, s, val), TransferRun(e, s, val, events).value);
    BlockIsWords(s.input + o.written, i);
    BlockIsWords(Produced(s, o), i);
    counter := Advance(Reversed(t.iv), i);
    Power256Of16();
    var wraps := AdvanceAdds(Reversed(t.iv), i);
  }
}
