/**
 * Whole transfers of the AES engine: from the write that starts one, through any
 * interleaving of FIFO writes and reads, to the authentication value.
 */
module AesTransfer {
  import opened Basics
  import opened Ccm
  import opened AesEngine

  /** What a transfer was started with; `leftover` is what the output FIFO still held. */
  datatype Transfer = Transfer(
    e: KeyedCipher, mode: Mode, key: Block, iv: Block, macLength: nat, extra: nat, blocks: nat, leftover: seq<Word>)
  {
    ghost predicate Valid() {
      1 <= macLength < 8 && extra < 65536 && blocks < 65536 && extra + blocks > 0 && |leftover| <= 16
      && (mode >= 2 ==> extra == 0)
    }
  }

  function Enc(t: Transfer): Cipher { x => t.e(t.key, x) }

  function Advance(b: Block, i: nat): Block { if i == 0 then b else Increment(Advance(b, i - 1)) }

  function CounterAt(t: Transfer, i: nat): Block {
    if t.mode < 2 then CounterBlock(NonceOf(t.iv), i + 1) else Advance(Reversed(t.iv), i)
  }

  function CounterOf(t: Transfer): nat -> Block { i => CounterAt(t, i) }

  // ---------------------------------------------------------------- the words of a transfer

  /** Block k of the input words. */
  function InputBlock(words: seq<Word>, k: nat): Block
    requires 4 * k + 4 <= |words|
  {
    BlockOf(words[4 * k..4 * k + 4])
  }

  function Inputs(words: seq<Word>, from: nat, n: nat): (blocks: seq<Block>)
    requires n == 0 || 4 * (from + n) <= |words|
    ensures |blocks| == n
  {
    if n == 0 then [] else Inputs(words, from, n - 1) + [InputBlock(words, from + n - 1)]
  }

  function WordsOfAll(blocks: seq<Block>): (words: seq<Word>)
    ensures |words| == 4 * |blocks|
  {
    if blocks == [] then [] else WordsOfAll(blocks[..|blocks| - 1]) + WordsOf(blocks[|blocks| - 1])
  }

  /** The first d blocks of payload as they come in, as they go out, and as they are authenticated. */
  function Payload(t: Transfer, words: seq<Word>, d: nat): seq<Block>
    requires d == 0 || 4 * (t.extra + d) <= |words|
  {
    Inputs(words, t.extra, d)
  }

  function Output(t: Transfer, words: seq<Word>, d: nat): seq<Block>
    requires d == 0 || 4 * (t.extra + d) <= |words|
  {
    Stream(Enc(t), CounterOf(t), Payload(t, words, d))
  }

  function Plain(t: Transfer, words: seq<Word>, d: nat): seq<Block>
    requires d == 0 || 4 * (t.extra + d) <= |words|
  {
    if t.mode == CCM_DECRYPT then Output(t, words, d) else Payload(t, words, d)
  }

  function Chain(t: Transfer, blocks: seq<Block>): Block
    requires t.Valid()
  {
    MacChain(Enc(t), Enc(t)(FirstBlock(NonceOf(t.iv), t.macLength, t.extra != 0, 16 * t.blocks)), blocks)
  }

  lemma {:induction false} InputsGrow(words: seq<Word>, more: seq<Word>, from: nat, n: nat)
    requires n == 0 || 4 * (from + n) <= |words|
    ensures Inputs(words + more, from, n) == Inputs(words, from, n)
  {
    if n > 0 {
      var j := from + n - 1;
      InputsGrow(words, more, from, n - 1);
      assert (words + more)[4 * j..4 * j + 4] == words[4 * j..4 * j + 4];
    }
  }

  lemma StreamNext(e: Cipher, counter: nat -> Block, blocks: seq<Block>, b: Block)
    ensures Stream(e, counter, blocks + [b]) == Stream(e, counter, blocks) + [Xor(b, e(counter(|blocks|)))]
  {
  }

  lemma ChainNext(t: Transfer, blocks: seq<Block>, b: Block)
    requires t.Valid()
    ensures Chain(t, blocks + [b]) == t.e(t.key, Xor(Chain(t, blocks), b))
  {
    assert (blocks + [b])[..|blocks|] == blocks;
  }

  lemma WordsNext(blocks: seq<Block>, b: Block)
    ensures WordsOfAll(blocks + [b]) == WordsOfAll(blocks) + WordsOf(b)
  {
    assert (blocks + [b])[..|blocks|] == blocks;
  }

  /** Reading the words of some blocks back gives the blocks. */
  lemma {:induction false} InputsOfWords(before: seq<Word>, blocks: seq<Block>, after: seq<Word>, from: nat)
    requires |before| == 4 * from
    ensures Inputs(before + WordsOfAll(blocks) + after, from, |blocks|) == blocks
  {
    var words := before + WordsOfAll(blocks) + after;
    if blocks != [] {
      var n := |blocks| - 1;
      var front, last := blocks[..n], blocks[n];
      InputsOfWords(before, front, WordsOf(last) + after, from);
      assert words == before + WordsOfAll(front) + (WordsOf(last) + after);
      assert words[4 * (from + n)..4 * (from + n) + 4] == WordsOf(last);
      BlockOfWords(last);
    }
  }

  lemma {:induction false} WordsOfInputs(words: seq<Word>, from: nat, n: nat)
    requires 4 * (from + n) <= |words|
    ensures WordsOfAll(Inputs(words, from, n)) == words[4 * from..4 * (from + n)]
  {
    hide WordsOfAll, BlockOf, WordsOf;
    if n == 0 {
      assert WordsOfAll([]) == [] by { NoWords(); }
    } else {
      WordsOfInputs(words, from, n - 1);
      WordsNext(Inputs(words, from, n - 1), InputBlock(words, from + n - 1));
      var j := from + n - 1;
      WordsOfBlock(words[4 * j..4 * j + 4]);
      JoinSlices(words, 4 * from, 4 * j, 4 * j + 4);
    }
  }

  lemma NoWords()
    ensures WordsOfAll([]) == []
  {
  }

  lemma JoinSlices(words: seq<Word>, a: nat, b: nat, c: nat)
    requires a <= b <= c <= |words|
    ensures words[a..c] == words[a..b] + words[b..c]
  {
  }

  // ---------------------------------------------------------------- the invariant

  /** Blocks of each kind that the engine has taken from the input FIFO. */
  function ExtraDone(t: Transfer, s: Engine): int { t.extra - s.remExtra }

  function PayloadDone(t: Transfer, s: Engine): int { t.blocks - s.remBlocks }

  predicate Counts(t: Transfer, words: seq<Word>, s: Engine) {
    && s.mode == t.mode
    && s.remExtra <= t.extra && s.remBlocks <= t.blocks && (s.remExtra > 0 ==> s.remBlocks == t.blocks)
    && 4 * (ExtraDone(t, s) + PayloadDone(t, s)) <= |words|
    && s.input == words[4 * (ExtraDone(t, s) + PayloadDone(t, s))..]
    && |s.input| <= FIFO_SIZE && |s.output| <= FIFO_SIZE
  }

  /** Everything that has come out: the leftover and the blocks done so far. */
  ghost predicate Outputs(t: Transfer, words: seq<Word>, taken: seq<Word>, s: Engine)
    requires Counts(t, words, s)
  {
    taken + s.output == t.leftover + WordsOfAll(Output(t, words, PayloadDone(t, s)))
  }

  ghost predicate Context(t: Transfer, words: seq<Word>, s: Engine)
    requires t.Valid() && Counts(t, words, s)
  {
    && s.ctx == Ctx(t.key, CounterAt(t, PayloadDone(t, s)))
    && (t.mode < 2 ==>
          s.curMac == Chain(t, Inputs(words, 0, ExtraDone(t, s)) + Plain(t, words, PayloadDone(t, s))))
  }

  /** A transfer under way, `words` supplied and `taken` read so far. */
  ghost predicate Running(t: Transfer, words: seq<Word>, taken: seq<Word>, s: Engine) {
    && t.Valid() && s.busy && !s.outputMacDue
    && Counts(t, words, s) && Outputs(t, words, taken, s) && Context(t, words, s)
  }

  /** The authentication value of the whole transfer. */
  function TransferTag(t: Transfer, words: seq<Word>): Block
    requires t.Valid() && 4 * (t.extra + t.blocks) <= |words|
  {
    Tag(Enc(t), NonceOf(t.iv), t.macLength, Inputs(words, 0, t.extra), Plain(t, words, t.blocks))
  }

  /** A finished transfer. */
  ghost predicate Done(t: Transfer, words: seq<Word>, taken: seq<Word>, s: Engine) {
    && t.Valid() && !s.busy && s.mode == t.mode && s.remExtra == s.remBlocks == 0
    && 4 * (t.extra + t.blocks) <= |words| && s.input == words[4 * (t.extra + t.blocks)..]
    && |s.input| <= FIFO_SIZE && |s.output| <= FIFO_SIZE
    && (s.outputMacDue ==> t.mode == CCM_ENCRYPT && |s.output| > 12)
    && (t.mode == CCM_ENCRYPT ==> s.outputMac == Reversed(TransferTag(t, words)))
    && s.macOk == (t.mode == CCM_DECRYPT && s.regs.mac == Reversed(TransferTag(t, words)))
    && taken + s.output
       == t.leftover + WordsOfAll(Output(t, words, t.blocks))
          + if t.mode == CCM_ENCRYPT && !s.outputMacDue then WordsOf(TransferTag(t, words)) else []
  }

  ghost predicate Inv(t: Transfer, words: seq<Word>, taken: seq<Word>, s: Engine) {
    if s.busy then Running(t, words, taken, s) && s.remExtra + s.remBlocks > 0 else Done(t, words, taken, s)
  }

  // ---------------------------------------------------------------- every block keeps it

  lemma CounterNext(t: Transfer, d: nat)
    requires d < 65536
    ensures Increment(CounterAt(t, d)) == CounterAt(t, d + 1)
  {
    hide Increment, CounterBlock;
    if t.mode < 2 {
      CounterAdvances(NonceOf(t.iv), d + 1);
    }
  }

  lemma InputsNext(words: seq<Word>, from: nat, n: nat)
    requires 4 * (from + n + 1) <= |words|
    ensures Inputs(words, from, n + 1) == Inputs(words, from, n) + [BlockOf(words[4 * (from + n)..4 * (from + n) + 4])]
  {
  }

  lemma NothingYet(t: Transfer, words: seq<Word>)
    ensures Plain(t, words, 0) == [] && Output(t, words, 0) == [] && WordsOfAll(Output(t, words, 0)) == []
  {
  }

  lemma PayloadNext(t: Transfer, words: seq<Word>, d: nat)
    requires 4 * (t.extra + d + 1) <= |words|
    ensures var b := BlockOf(words[4 * (t.extra + d)..4 * (t.extra + d) + 4]);
            var c := Xor(b, t.e(t.key, CounterAt(t, d)));
            && Output(t, words, d + 1) == Output(t, words, d) + [c]
            && Plain(t, words, d + 1) == Plain(t, words, d) + [if t.mode == CCM_DECRYPT then c else b]
  {
    hide BlockOf, Xor, CounterAt, InputBlock, Inputs;
    InputsNext(words, t.extra, d);
    StreamNext(Enc(t), CounterOf(t), Payload(t, words, d), BlockOf(words[4 * (t.extra + d)..4 * (t.extra + d) + 4]));
  }

  lemma ExtraKeeps(t: Transfer, words: seq<Word>, taken: seq<Word>, s: Engine)
    requires Running(t, words, taken, s) && |s.input| >= 4 && s.remExtra > 0
    ensures Running(t, words, taken, ExtraBlock(t.e, s))
  {
    hide Chain, WordsOfAll, Output, Plain, InputBlock, Inputs, CounterAt, Stream, Xor, BlockOf;
    var k := ExtraDone(t, s);
    assert s.input[..4] == words[4 * k..4 * k + 4];
    NothingYet(t, words);
    InputsNext(words, 0, k);
    ChainNext(t, Inputs(words, 0, k), BlockOf(s.input[..4]));
    assert Inputs(words, 0, k) + [] == Inputs(words, 0, k);
    assert Inputs(words, 0, k + 1) + [] == Inputs(words, 0, k + 1);
  }

  lemma PayloadKeeps(t: Transfer, words: seq<Word>, taken: seq<Word>, s: Engine)
    requires Running(t, words, taken, s) && |s.input| >= 4 && s.remExtra == 0 && s.remBlocks > 0 && |s.output| <= 12
    ensures Running(t, words, taken, PayloadBlock(t.e, s))
  {
    hide Chain, WordsOfAll, Output, Plain, InputBlock, Inputs, CounterAt, Stream, Xor, BlockOf, WordsOf, PushAll;
    hide Increment;
    var d := PayloadDone(t, s);
    var at := 4 * (t.extra + d);
    var (b, c) := (NextBlock(s), Crypted(t.e, s));
    assert s.input[..4] == words[at..at + 4];
    PayloadNext(t, words, d);
    CounterNext(t, d);
    PushAllWords(s.output, c);
    WordsNext(Output(t, words, d), c);
    var x := if t.mode == CCM_DECRYPT then c else b;
    ChainNext(t, Inputs(words, 0, t.extra) + Plain(t, words, d), x);
    assert Inputs(words, 0, t.extra) + Plain(t, words, d) + [x]
           == Inputs(words, 0, t.extra) + (Plain(t, words, d) + [x]);
    assert taken + (s.output + WordsOf(c)) == taken + s.output + WordsOf(c);
  }

  lemma PushAllWords(fifo: seq<Word>, b: Block)
    requires |fifo| <= 12
    ensures PushAll(fifo, WordsOf(b)) == fifo + WordsOf(b) && |WordsOf(b)| == 4
  {
    PushAllFits(fifo, WordsOf(b));
  }

  lemma FinalMacIsTag(t: Transfer, words: seq<Word>, taken: seq<Word>, s: Engine)
    requires Running(t, words, taken, s) && s.remExtra == 0 && s.remBlocks == 0 && t.mode < 2
    ensures FinalMac(t.e, s) == TransferTag(t, words)
  {
    hide WordsOfAll, Inputs, Xor, MacChain, FirstBlock;
    assert BigEndian3(0) == [0, 0, 0];
    assert CounterZero(s.ctx.iv) == CounterBlock(NonceOf(t.iv), 0);
    assert |Plain(t, words, t.blocks)| == t.blocks;
  }

  lemma FinishKeeps(t: Transfer, words: seq<Word>, taken: seq<Word>, s: Engine)
    requires Running(t, words, taken, s) && s.remExtra == 0 && s.remBlocks == 0
    ensures Done(t, words, taken, Finish(t.e, s))
  {
    hide Context, FinalMac, TransferTag, Increment, Output, WordsOfAll, WordsOf, PushAll, Reversed;
    if t.mode < 2 {
      FinalMacIsTag(t, words, taken, s);
      var tag := TransferTag(t, words);
      if |s.output| <= 12 {
        PushAllWords(s.output, tag);
        assert taken + (s.output + WordsOf(tag)) == taken + s.output + WordsOf(tag);
      }
    }
  }

  // ---------------------------------------------------------------- every operation keeps it

  /** The engine has done all that its FIFOs allow. */
  predicate Quiet(s: Engine) {
    s.busy ==> |s.input| < 4 || (s.remExtra == 0 && |s.output| > 12)
  }

  lemma {:induction false} ConsumeExtraKeeps(t: Transfer, words: seq<Word>, taken: seq<Word>, s: Engine)
    requires Running(t, words, taken, s)
    ensures var s1 := ConsumeExtra(t.e, s);
            Running(t, words, taken, s1) && (|s1.input| < 4 || s1.remExtra == 0)
    decreases s.remExtra
  {
    if |s.input| >= 4 && s.remExtra > 0 {
      ExtraKeeps(t, words, taken, s);
      ConsumeExtraKeeps(t, words, taken, ExtraBlock(t.e, s));
    }
  }

  lemma {:induction false} ConsumeBlocksKeeps(t: Transfer, words: seq<Word>, taken: seq<Word>, s: Engine)
    requires Running(t, words, taken, s) && s.remExtra == 0
    ensures var s1 := ConsumeBlocks(t.e, s);
            Running(t, words, taken, s1) && s1.remExtra == 0
              && (|s1.input| < 4 || |s1.output| > 12 || s1.remBlocks == 0)
    decreases s.remBlocks
  {
    if |s.input| >= 4 && |s.output| <= 12 && s.remBlocks > 0 {
      PayloadKeeps(t, words, taken, s);
      ConsumeBlocksKeeps(t, words, taken, PayloadBlock(t.e, s));
    }
  }

  lemma UpdateKeeps(t: Transfer, words: seq<Word>, taken: seq<Word>, s: Engine)
    requires Running(t, words, taken, s)
    ensures Inv(t, words, taken, Update(t.e, s)) && Quiet(Update(t.e, s))
  {
    hide Counts, Outputs, Context, ConsumeExtra, ConsumeBlocks, Finish, Done;
    ConsumeExtraKeeps(t, words, taken, s);
    var s1 := ConsumeExtra(t.e, s);
    if s1.remExtra == 0 {
      ConsumeBlocksKeeps(t, words, taken, s1);
    }
    var s2 := Consume(t.e, s);
    if s2.remExtra == 0 && s2.remBlocks == 0 {
      FinishKeeps(t, words, taken, s2);
      assert !Finish(t.e, s2).busy by { DoneIsIdle(t, words, taken, Finish(t.e, s2)); }
    }
  }

  lemma DoneIsIdle(t: Transfer, words: seq<Word>, taken: seq<Word>, s: Engine)
    requires Done(t, words, taken, s)
    ensures !s.busy
  {
  }

  lemma MoreWords(t: Transfer, words: seq<Word>, w: Word, extra: nat, d: nat)
    requires extra == 0 || 4 * extra <= |words|
    requires d == 0 || 4 * (t.extra + d) <= |words|
    ensures Inputs(words + [w], 0, extra) == Inputs(words, 0, extra)
    ensures Output(t, words + [w], d) == Output(t, words, d) && Plain(t, words + [w], d) == Plain(t, words, d)
  {
    InputsGrow(words, [w], 0, extra);
    InputsGrow(words, [w], t.extra, d);
  }

  /** The words supplied grow by one. */
  lemma SupplyKeeps(t: Transfer, words: seq<Word>, taken: seq<Word>, s: Engine, w: Word)
    requires Inv(t, words, taken, s) && |s.input| < FIFO_SIZE
    ensures Inv(t, words + [w], taken, s.(input := s.input + [w]))
  {
    hide Inputs, Output, Plain, Chain, WordsOfAll, CounterAt, Tag;
    MoreWords(t, words, w, t.extra - s.remExtra, t.blocks - s.remBlocks);
  }

  lemma WriteKeeps(t: Transfer, words: seq<Word>, taken: seq<Word>, s: Engine, w: Word)
    requires Inv(t, words, taken, s) && |s.input| < FIFO_SIZE
    ensures Inv(t, words + [w], taken, WriteInput(t.e, s, w)) && Quiet(WriteInput(t.e, s, w))
  {
    hide Done, Running, Update, Quiet;
    var s1 := s.(input := s.input + [w]);
    SupplyKeeps(t, words, taken, s, w);
    assert s.input + [w] == Push(s.input, w);
    if s.busy {
      UpdateKeeps(t, words + [w], taken, s1);
    } else {
      assert Quiet(s1) by { IdleIsQuiet(s1); }
    }
  }

  lemma IdleIsQuiet(s: Engine)
    requires !s.busy
    ensures Quiet(s)
  {
  }

  lemma TakeKeeps(t: Transfer, words: seq<Word>, taken: seq<Word>, s: Engine)
    requires Running(t, words, taken, s) && s.output != []
    ensures Running(t, words, taken + [s.output[0]], s.(output := s.output[1..]))
  {
    hide Chain, WordsOfAll, Output, Plain, Inputs, CounterAt;
    assert taken + [s.output[0]] + s.output[1..] == taken + s.output;
  }

  lemma ReadKeeps(t: Transfer, words: seq<Word>, taken: seq<Word>, s: Engine)
    requires Inv(t, words, taken, s) && s.output != []
    ensures Inv(t, words, taken + [s.output[0]], ReadOutput(t.e, s)) && Quiet(ReadOutput(t.e, s))
  {
    hide Running, Update, TransferTag, WordsOfAll, WordsOf, PushAll, Reversed, Quiet, Output;
    var now, s1 := taken + [s.output[0]], s.(output := s.output[1..]);
    if s.busy {
      TakeKeeps(t, words, taken, s);
      UpdateKeeps(t, words, now, s1);
    } else {
      assert now + s1.output == taken + s.output;
      var tag := TransferTag(t, words);
      if s.outputMacDue && |s1.output| <= 12 {
        ReversedTwice(tag);
        PushAllWords(s1.output, tag);
        assert now + (s1.output + WordsOf(tag)) == now + s1.output + WordsOf(tag);
      }
      IdleIsQuiet(ReadOutput(t.e, s));
    }
  }

  lemma ReversedTwice(b: Block)
    ensures Reversed(Reversed(b)) == b
  {
  }

  // ---------------------------------------------------------------- starting a transfer

  /** The transfer that a control write starts. */
  function TransferOf(e: KeyedCipher, s: Engine, val: Control): Transfer
    requires val.Valid() && |s.regs.keyNormal| == 4
  {
    var regs := KeySelected(s.regs, val);
    Transfer(e, val.mode, Reversed(regs.curKey), regs.iv, MacLength(val.macSize),
             if val.mode < 2 then regs.blkCnt % 65536 else 0, regs.blkCnt / 65536, s.output)
  }

  /** A legal start: the engine idle, something to do, the FIFOs within their capacity. */
  predicate Startable(s: Engine, val: Control) {
    && val.Valid() && |s.regs.keyNormal| == 4 && s.regs.blkCnt < 0x1_0000_0000
    && !s.busy && val.start && |s.input| <= FIFO_SIZE && |s.output| <= FIFO_SIZE
  }

  lemma FirstMacBlockIsB0(nonce: Nonce, macLength: nat, blkCnt: nat)
    requires 1 <= macLength < 8 && blkCnt < 0x1_0000_0000
    ensures FirstMacBlock(nonce, macLength, blkCnt)
            == FirstBlock(nonce, macLength, blkCnt % 65536 != 0, 16 * (blkCnt / 65536))
  {
    var n := blkCnt / 65536;
    assert 16 * n / 65536 == n / 4096 && 16 * n / 256 == n / 16;
  }

  /** A control write with the start bit starts the transfer, or none if both counts are zero. */
  lemma StartKeeps(e: KeyedCipher, s: Engine, val: Control)
    requires Startable(s, val)
    ensures var t := TransferOf(e, s, val);
            var s1 := WriteControl(e, s, val);
            && s1.regs == KeySelected(s.regs, val)
            && if t.extra + t.blocks == 0 then !s1.busy && s1.output == s.output
               else t.Valid() && Inv(t, s.input, [], s1)
  {
    hide FirstMacBlock, FirstBlock, NonceOf, Reversed, MacChain, Inputs, InputBlock;
    var t, s1 := TransferOf(e, s, val), WriteControl(e, s, val);
    FirstMacBlockIsB0(NonceOf(t.iv), t.macLength, s.regs.blkCnt);
    assert BigEndian3(1) == [0, 0, 1];
    NothingYet(t, s.input);
    if t.extra + t.blocks > 0 {
      assert Inputs(s.input, 0, 0) + Plain(t, s.input, 0) == [];
      assert Chain(t, [])
             == Enc(t)(FirstBlock(NonceOf(t.iv), t.macLength, t.extra != 0, 16 * t.blocks)) by { ChainEmpty(t); }
      assert Context(t, s.input, s1);
    }
  }

  lemma ChainEmpty(t: Transfer)
    requires t.Valid()
    ensures Chain(t, []) == Enc(t)(FirstBlock(NonceOf(t.iv), t.macLength, t.extra != 0, 16 * t.blocks))
  {
  }
}
