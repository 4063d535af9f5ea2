/**
 * The DSi AES engine: a streaming state machine between two 16-word FIFOs.
 *
 * `Engine` is its state as a value with one function per operation; the class
 * `DSiAES` is the engine itself, whose methods are proved against them.  A word
 * is kept as its four bytes in memory order.  The engine works on byte-reversed
 * blocks, and the cipher `e` is an arbitrary function of key and block.
 */
module AesEngine {
  import opened Basics
  import opened Ccm

  type Word = w: seq<byte> | |w| == 4 witness [0, 0, 0, 0]

  type KeyedCipher = (Block, Block) -> Block

  const CCM_DECRYPT := 0
  const CCM_ENCRYPT := 1

  type Mode = m: int | 0 <= m < 4

  const FIFO_SIZE := 16

  /** The fields of a write to the control register that the transfer depends on. */
  datatype Control = Control(start: bool, mode: Mode, keySlot: int, applyKey: bool, macSize: int) {
    predicate Valid() { 0 <= keySlot < 4 && 0 <= macSize < 8 }
  }

  /** What the processor writes before a transfer; a transfer leaves it alone. */
  datatype Registers = Registers(blkCnt: nat, iv: Block, mac: Block, keyNormal: seq<Block>, curKey: Block)

  /** The cipher context: key and counter. */
  datatype Ctx = Ctx(key: Block, iv: Block)

  datatype Engine = Engine(
    busy: bool, macOk: bool, mode: Mode, regs: Registers, remExtra: nat, remBlocks: nat,
    input: seq<Word>, output: seq<Word>, curMac: Block, outputMac: Block, outputMacDue: bool, ctx: Ctx)

  function Joined(a: seq<byte>, b: seq<byte>, c: seq<byte>, d: seq<byte>): Block
    requires |a| == |b| == |c| == |d| == 4
  {
    a + b + c + d
  }

  /** Four FIFO words as the block the engine works on, and back. */
  function BlockOf(words: seq<Word>): Block
    requires |words| == 4
  {
    Reversed(Joined(words[0], words[1], words[2], words[3]))
  }

  function WordsOf(b: Block): seq<Word> {
    var d := Reversed(b);
    [d[..4], d[4..8], d[8..12], d[12..]]
  }

  lemma WordsOfBlock(words: seq<Word>)
    requires |words| == 4
    ensures WordsOf(BlockOf(words)) == words
  {
    var d := Joined(words[0], words[1], words[2], words[3]);
    assert Reversed(Reversed(d)) == d;
    assert d[..4] == words[0] && d[4..8] == words[1] && d[8..12] == words[2] && d[12..] == words[3];
  }

  lemma BlockOfWords(b: Block)
    ensures |WordsOf(b)| == 4 && BlockOf(WordsOf(b)) == b
  {
    var d := Reversed(b);
    assert Joined(d[..4], d[4..8], d[8..12], d[12..]) == d;
    assert Reversed(d) == b;
  }

  /** A full FIFO drops the word. */
  function Push(fifo: seq<Word>, w: Word): seq<Word> { if |fifo| >= FIFO_SIZE then fifo else fifo + [w] }

  function PushAll(fifo: seq<Word>, words: seq<Word>): seq<Word>
    requires |words| == 4
  {
    Push(Push(Push(Push(fifo, words[0]), words[1]), words[2]), words[3])
  }

  lemma PushAllFits(fifo: seq<Word>, words: seq<Word>)
    requires |words| == 4 && |fifo| <= 12
    ensures PushAll(fifo, words) == fifo + words
  {
    assert words == [words[0], words[1], words[2], words[3]];
  }

  // ---------------------------------------------------------------- one block

  function ExtraBlock(e: KeyedCipher, s: Engine): Engine
    requires |s.input| >= 4 && s.remExtra > 0
  {
    s.(input := s.input[4..], remExtra := s.remExtra - 1,
       curMac := e(s.ctx.key, Xor(s.curMac, BlockOf(s.input[..4]))))
  }

  /** The next block, as the FIFO holds it and as counter mode leaves it. */
  function NextBlock(s: Engine): Block
    requires |s.input| >= 4
  {
    BlockOf(s.input[..4])
  }

  function Crypted(e: KeyedCipher, s: Engine): Block
    requires |s.input| >= 4
  {
    Xor(NextBlock(s), e(s.ctx.key, s.ctx.iv))
  }

  function PayloadBlock(e: KeyedCipher, s: Engine): Engine
    requires |s.input| >= 4 && s.remBlocks > 0
  {
    s.(input := s.input[4..], remBlocks := s.remBlocks - 1,
       output := PushAll(s.output, WordsOf(Crypted(e, s))),
       ctx := s.ctx.(iv := Increment(s.ctx.iv)),
       curMac := if s.mode >= 2 then s.curMac
                 else e(s.ctx.key, Xor(s.curMac, if s.mode == CCM_DECRYPT then Crypted(e, s) else NextBlock(s))))
  }

  // ---------------------------------------------------------------- operations

  function ConsumeExtra(e: KeyedCipher, s: Engine): Engine
    decreases s.remExtra
  {
    if |s.input| >= 4 && s.remExtra > 0 then ConsumeExtra(e, ExtraBlock(e, s)) else s
  }

  function ConsumeBlocks(e: KeyedCipher, s: Engine): Engine
    decreases s.remBlocks
  {
    if |s.input| >= 4 && |s.output| <= 12 && s.remBlocks > 0 then ConsumeBlocks(e, PayloadBlock(e, s)) else s
  }

  function CounterZero(iv: Block): Block { iv[..13] + [0, 0, 0] }

  /** The chain value with the encrypted counter zero added. */
  function FinalMac(e: KeyedCipher, s: Engine): Block { Xor(s.curMac, e(s.ctx.key, CounterZero(s.ctx.iv))) }

  function Finish(e: KeyedCipher, s: Engine): Engine {
    if s.mode >= 2 then s.(busy := false, macOk := false)
    else
      var tag := FinalMac(e, s);
      var t := s.(busy := false, curMac := tag, ctx := s.ctx.(iv := Increment(CounterZero(s.ctx.iv))));
      if s.mode == CCM_DECRYPT then t.(macOk := Reversed(tag) == s.regs.mac)
      else
        t.(macOk := false, outputMac := Reversed(tag),
           output := if |s.output| <= 12 then PushAll(s.output, WordsOf(tag)) else s.output,
           outputMacDue := s.outputMacDue || |s.output| > 12)
  }

  function Consume(e: KeyedCipher, s: Engine): Engine {
    var s1 := ConsumeExtra(e, s);
    if s1.remExtra == 0 then ConsumeBlocks(e, s1) else s1
  }

  function Update(e: KeyedCipher, s: Engine): Engine {
    var s2 := Consume(e, s);
    if s2.remBlocks == 0 && s2.remExtra == 0 then Finish(e, s2) else s2
  }

  function WriteInput(e: KeyedCipher, s: Engine, w: Word): Engine {
    var s1 := s.(input := Push(s.input, w));
    if s.busy then Update(e, s1) else s1
  }

  function ReadOutput(e: KeyedCipher, s: Engine): Engine
    requires s.output != []
  {
    var s1 := s.(output := s.output[1..]);
    if s.busy then
      if s.remBlocks == 0 && s.remExtra == 0 then s1 else Update(e, s1)
    else if s.outputMacDue && |s1.output| <= 12 then
      s1.(output := PushAll(s1.output, WordsOf(Reversed(s.outputMac))), outputMacDue := false)
    else s1
  }

  function MacLength(macSize: nat): nat { if macSize < 1 then 1 else macSize }

  function NonceOf(iv: Block): Nonce { Reversed(iv)[4..] }

  function FirstMacBlock(nonce: Nonce, macLength: nat, blkCnt: nat): Block
    requires 1 <= macLength < 8
  {
    var blocks := blkCnt / 65536;
    [2 + 8 * macLength + if blkCnt % 65536 != 0 then 64 else 0] + nonce
    + [blocks / 4096 % 256, blocks / 16 % 256, blocks * 16 % 256]
  }

  /** The block counts of a new transfer; no transfer at all if both are zero. */
  function Counted(s: Engine): Engine {
    var t := s.(remExtra := if s.mode < 2 then s.regs.blkCnt % 65536 else 0, remBlocks := s.regs.blkCnt / 65536,
                outputMacDue := false);
    t.(busy := t.remExtra > 0 || t.remBlocks > 0)
  }

  function StartTransfer(e: KeyedCipher, s: Engine, macSize: nat): Engine
    requires macSize < 8
  {
    var t := Counted(s);
    var key := Reversed(s.regs.curKey);
    if !t.busy then t
    else if s.mode >= 2 then t.(ctx := Ctx(key, Reversed(s.regs.iv)))
    else
      t.(ctx := Ctx(key, [2] + NonceOf(s.regs.iv) + [0, 0, 1]),
         curMac := e(key, FirstMacBlock(NonceOf(s.regs.iv), MacLength(macSize), s.regs.blkCnt)))
  }

  function KeySelected(regs: Registers, val: Control): Registers
    requires val.Valid() && |regs.keyNormal| == 4
  {
    if val.applyKey then regs.(curKey := regs.keyNormal[val.keySlot]) else regs
  }

  function WriteControl(e: KeyedCipher, s: Engine, val: Control): Engine
    requires val.Valid() && |s.regs.keyNormal| == 4
  {
    var t := s.(macOk := false, mode := val.mode, regs := KeySelected(s.regs, val));
    if val.start && !s.busy then StartTransfer(e, t, val.macSize) else t.(busy := val.start)
  }

  // ---------------------------------------------------------------- the engine

  class DSiAES {
    const e: KeyedCipher

    var busy: bool
    var macOk: bool
    var mode: Mode
    var regs: Registers
    var remExtra: nat
    var remBlocks: nat
    var input: seq<Word>
    var output: seq<Word>
    var curMac: Block
    var outputMac: Block
    var outputMacDue: bool
    var ctx: Ctx

    constructor (e: KeyedCipher)
      ensures this.e == e && !busy && input == output == [] && |regs.keyNormal| == 4 && !outputMacDue
    {
      this.e := e;
      busy, macOk, mode, remExtra, remBlocks, input, output := false, false, 0, 0, 0, [], [];
      var zero: Block := seq(16, _ => 0);
      regs := Registers(0, zero, zero, [zero, zero, zero, zero], zero);
      curMac, outputMac, outputMacDue, ctx := zero, zero, false, Ctx(zero, zero);
    }

    function State(): Engine
      reads this
    {
      Engine(busy, macOk, mode, regs, remExtra, remBlocks, input, output, curMac, outputMac, outputMacDue, ctx)
    }

    static method Bswap128(src: Block) returns (dst: Block)
      ensures dst == Reversed(src)
    {
      dst := src;
      for i := 0 to 16
        invariant forall k :: 0 <= k < i ==> dst[k] == src[15 - k]
      {
        dst := dst[i := src[15 - i]];
      }
    }

    static method XorInto(a: Block, b: Block) returns (r: Block)
      ensures r == Xor(a, b)
    {
      r := a;
      for i := 0 to 16
        invariant forall k :: 0 <= k < i ==> r[k] == XorByte(a[k], b[k])
        invariant forall k :: i <= k < 16 ==> r[k] == a[k]
      {
        r := r[i := XorByte(r[i], b[i])];
      }
    }

    method ReadBlock() returns (data: Block)
      requires |input| >= 4
      modifies this`input
      ensures data == BlockOf(old(input)[..4]) && input == old(input)[4..]
    {
      var bytes := Joined(input[0], input[1], input[2], input[3]);
      input := input[4..];
      data := Bswap128(bytes);
    }

    method WriteOutput(w: Word)
      modifies this`output
      ensures output == Push(old(output), w)
    {
      if |output| < FIFO_SIZE {
        output := output + [w];
      }
    }

    method WriteBlock(data: Block)
      modifies this`output
      ensures output == PushAll(old(output), WordsOf(data))
    {
      var bytes := Bswap128(data);
      WriteOutput(bytes[..4]);
      WriteOutput(bytes[4..8]);
      WriteOutput(bytes[8..12]);
      WriteOutput(bytes[12..]);
    }

    /** Counter-mode encryption of one block, which advances the counter. */
    method CtrXcrypt(data: Block) returns (r: Block)
      modifies this`ctx
      ensures r == Xor(data, e(ctx.key, old(ctx.iv))) && ctx == old(ctx).(iv := Increment(old(ctx.iv)))
    {
      r := XorInto(data, e(ctx.key, ctx.iv));
      ctx := ctx.(iv := Increment(ctx.iv));
    }

    method ProcessBlockExtra()
      requires |input| >= 4
      modifies this`input, this`curMac
      ensures input == old(input)[4..]
      ensures curMac == e(ctx.key, Xor(old(curMac), old(NextBlock(State()))))
    {
      hide BlockOf, Xor;
      var data := ReadBlock();
      curMac := XorInto(curMac, data);
      curMac := e(ctx.key, curMac);
    }

    method ProcessBlockDecrypt()
      requires |input| >= 4 && mode == CCM_DECRYPT
      modifies this`input, this`output, this`curMac, this`ctx
      ensures input == old(input)[4..] && ctx == old(ctx).(iv := Increment(old(ctx.iv)))
      ensures output == PushAll(old(output), WordsOf(Crypted(e, old(State()))))
      ensures curMac == e(ctx.key, Xor(old(curMac), Crypted(e, old(State()))))
    {
      hide PushAll, WordsOf, BlockOf, Xor, Increment;
      var data := ReadBlock();
      data := CtrXcrypt(data);
      curMac := XorInto(curMac, data);
      curMac := e(ctx.key, curMac);
      WriteBlock(data);
    }

    method ProcessBlockEncrypt()
      requires |input| >= 4 && mode == CCM_ENCRYPT
      modifies this`input, this`output, this`curMac, this`ctx
      ensures input == old(input)[4..] && ctx == old(ctx).(iv := Increment(old(ctx.iv)))
      ensures output == PushAll(old(output), WordsOf(Crypted(e, old(State()))))
      ensures curMac == e(ctx.key, Xor(old(curMac), NextBlock(old(State()))))
    {
      hide PushAll, WordsOf, BlockOf, Xor, Increment;
      var data := ReadBlock();
      curMac := XorInto(curMac, data);
      data := CtrXcrypt(data);
      curMac := e(ctx.key, curMac);
      WriteBlock(data);
    }

    method ProcessBlockCtr()
      requires |input| >= 4 && mode >= 2
      modifies this`input, this`output, this`ctx
      ensures input == old(input)[4..] && ctx == old(ctx).(iv := Increment(old(ctx.iv)))
      ensures output == PushAll(old(output), WordsOf(Crypted(e, old(State()))))
    {
      hide PushAll, WordsOf, BlockOf, Xor, Increment;
      var data := ReadBlock();
      data := CtrXcrypt(data);
      WriteBlock(data);
    }

    /** One block of payload, by mode. */
    method ProcessBlock()
      requires |input| >= 4 && remBlocks > 0
      modifies this`input, this`output, this`curMac, this`ctx, this`remBlocks
      ensures State() == PayloadBlock(e, old(State())) && remBlocks == old(remBlocks) - 1
    {
      hide PushAll, WordsOf, Xor, Increment, Crypted, NextBlock;
      ghost var s := State();
      if mode == CCM_DECRYPT {
        ProcessBlockDecrypt();
        assert curMac == PayloadBlock(e, s).curMac;
      } else if mode == CCM_ENCRYPT {
        ProcessBlockEncrypt();
        assert curMac == PayloadBlock(e, s).curMac;
      } else {
        ProcessBlockCtr();
      }
      assert output == PayloadBlock(e, s).output;
      assert ctx == PayloadBlock(e, s).ctx;
      assert input == PayloadBlock(e, s).input;
      remBlocks := remBlocks - 1;
    }

    /** The two loops of `Update`. */
    method ConsumeAll()
      modifies this
      ensures State() == Consume(e, old(State()))
    {
      hide PayloadBlock, Xor, BlockOf;
      while |input| >= 4 && remExtra > 0
        invariant ConsumeExtra(e, State()) == ConsumeExtra(e, old(State()))
        decreases remExtra
      {
        ProcessBlockExtra();
        remExtra := remExtra - 1;
      }
      ghost var s1 := State();
      if remExtra == 0 {
        while |input| >= 4 && |output| <= 12 && remBlocks > 0
          invariant ConsumeBlocks(e, State()) == ConsumeBlocks(e, s1)
          decreases remBlocks
        {
          ProcessBlock();
        }
      }
    }

    /** The comparison loop of a decryption: sets bit 21 unless some byte of the MAC differs. */
    method CompareMac()
      modifies this`macOk
      ensures macOk == (Reversed(curMac) == regs.mac)
    {
      var calculated, expected := curMac, regs.mac;
      macOk := true;
      for i := 0 to 16
        invariant macOk <==> forall k :: 0 <= k < i ==> expected[k] == calculated[15 - k]
      {
        if calculated[15 - i] != expected[i] {
          macOk := false;
        }
      }
      assert forall k :: 0 <= k < 16 ==> Reversed(calculated)[k] == calculated[15 - k];
    }

    /** Add the encrypted counter zero to the chain. */
    method CloseMac()
      modifies this`ctx, this`curMac
      ensures curMac == FinalMac(e, old(State())) && ctx == old(ctx).(iv := Increment(CounterZero(old(ctx.iv))))
    {
      hide Xor, Increment;
      ctx := ctx.(iv := ctx.iv[13 := 0][14 := 0][15 := 0]);
      assert ctx.iv == CounterZero(old(ctx.iv));
      curMac := CtrXcrypt(curMac);
    }

    /** Send the MAC on its way, now or when there is room. */
    method SendMac()
      modifies this`output, this`outputMac, this`outputMacDue
      ensures outputMac == Reversed(curMac)
      ensures output == if |old(output)| <= 12 then PushAll(old(output), WordsOf(curMac)) else old(output)
      ensures outputMacDue == (old(outputMacDue) || |old(output)| > 12)
    {
      hide PushAll, WordsOf, Reversed;
      outputMac := Bswap128(curMac);
      if |output| <= 12 {
        WriteBlock(curMac);
      } else {
        outputMacDue := true;
      }
    }

    method FinishTransfer()
      modifies this
      ensures State() == Finish(e, old(State()))
    {
      hide PushAll, WordsOf, Reversed, FinalMac, Increment, CounterZero;
      if mode == CCM_DECRYPT {
        CloseMac();
        CompareMac();
      } else if mode == CCM_ENCRYPT {
        CloseMac();
        SendMac();
        macOk := false;
      } else {
        macOk := false;
      }
      busy := false;
    }

    method Updated()
      modifies this
      ensures State() == Update(e, old(State()))
    {
      hide Consume, Finish;
      ConsumeAll();
      if remBlocks == 0 && remExtra == 0 {
        FinishTransfer();
      }
    }

    method WriteInputFIFO(val: Word)
      modifies this
      ensures State() == WriteInput(e, old(State()), val)
    {
      hide Update;
      if |input| < FIFO_SIZE {
        input := input + [val];
      }
      if busy {
        Updated();
      }
    }

    method ReadOutputFIFO() returns (val: Word)
      requires output != []
      modifies this
      ensures val == old(output)[0] && State() == ReadOutput(e, old(State()))
    {
      hide Update, PushAll, WordsOf, Reversed;
      val := output[0];
      output := output[1..];
      if busy {
        if remBlocks != 0 || remExtra != 0 {
          Updated();
        }
      } else if outputMacDue && |output| <= 12 {
        var block := Bswap128(outputMac);
        WriteBlock(block);
        outputMacDue := false;
      }
    }

    method WriteBlkCnt(val: nat)
      requires val < 0x1_0000_0000
      modifies this`regs
      ensures State() == old(State()).(regs := old(regs).(blkCnt := val))
    {
      regs := regs.(blkCnt := val);
    }

    /** The first counter block and the encrypted first MAC block of a CCM transfer. */
    method StartCcm(key: Block, reversedIv: Block, macLength: nat)
      requires 1 <= macLength < 8 && regs.blkCnt < 0x1_0000_0000 && remBlocks == regs.blkCnt / 65536
      requires reversedIv == Reversed(regs.iv)
      modifies this`ctx, this`curMac
      ensures ctx == Ctx(key, [2] + NonceOf(regs.iv) + [0, 0, 1])
      ensures curMac == e(key, FirstMacBlock(NonceOf(regs.iv), macLength, regs.blkCnt))
    {
      var block := ShiftNonce(reversedIv);
      ctx := Ctx(key, block);
      block := block[0 := block[0] + 8 * macLength + if regs.blkCnt % 65536 != 0 then 64 else 0];
      block := block[13 := remBlocks / 4096 % 256][14 := remBlocks / 16 % 256][15 := remBlocks * 16 % 256];
      assert block == FirstMacBlock(NonceOf(regs.iv), macLength, regs.blkCnt);
      curMac := e(key, block);
    }

    method Count()
      modifies this`busy, this`remExtra, this`remBlocks, this`outputMacDue
      ensures State() == Counted(old(State()))
    {
      remExtra := if mode < 2 then regs.blkCnt % 65536 else 0;
      remBlocks := regs.blkCnt / 65536;
      outputMacDue := false;
      busy := remBlocks > 0 || remExtra > 0;
    }

    method Begin(macSize: nat)
      requires macSize < 8 && regs.blkCnt < 0x1_0000_0000
      modifies this`busy, this`remExtra, this`remBlocks, this`outputMacDue, this`ctx, this`curMac
      ensures State() == StartTransfer(e, old(State()), macSize)
    {
      hide FirstMacBlock, NonceOf, Reversed;
      Count();
      if busy {
        var key := Bswap128(regs.curKey);
        var block := Bswap128(regs.iv);
        if mode < 2 {
          StartCcm(key, block, MacLength(macSize));
        } else {
          ctx := Ctx(key, block);
        }
      }
    }

    method WriteCnt(val: Control)
      requires val.Valid() && |regs.keyNormal| == 4 && regs.blkCnt < 0x1_0000_0000
      modifies this
      ensures State() == WriteControl(e, old(State()), val)
    {
      hide StartTransfer;
      macOk, mode := false, val.mode;
      if val.applyKey {
        regs := regs.(curKey := regs.keyNormal[val.keySlot]);
      }
      if !busy && val.start {
        Begin(val.macSize);
      } else {
        busy := val.start;
      }
    }

    /** Flags byte, nonce moved down in place by three, and the counter one. */
    static method ShiftNonce(block: Block) returns (r: Block)
      ensures r == [2] + block[4..] + [0, 0, 1]
    {
      r := block[0 := 2];
      for i := 0 to 12
        invariant r[0] == 2 && forall k :: 1 <= k <= i ==> r[k] == block[3 + k]
        invariant forall k :: i < k < 16 ==> r[k] == block[k]
      {
        r := r[1 + i := r[4 + i]];
      }
      r := r[13 := 0][14 := 0][15 := 1];
    }
  }
}
