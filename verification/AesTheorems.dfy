/** What the AES engine promises about whole transfers. */
module AesTheorems {
  import opened Basics
  import opened Ccm
  import opened AesEngine
  import opened AesTransfer

  datatype Event = Write(word: Word) | Read

  /** The engine after some FIFO accesses, and the words they wrote and read. */
  datatype Outcome = Outcome(engine: Engine, written: seq<Word>, taken: seq<Word>)

  /** Callers never write a full FIFO or read an empty one. */
  predicate Legal(s: Engine, event: Event) {
    if event.Write? then |s.input| < FIFO_SIZE else s.output != []
  }

  function Apply(e: KeyedCipher, o: Outcome, event: Event): Option<Outcome> {
    if !Legal(o.engine, event) then None
    else
      match event
      case Write(w) => Some(Outcome(WriteInput(e, o.engine, w), o.written + [w], o.taken))
      case Read => Some(Outcome(ReadOutput(e, o.engine), o.written, o.taken + [o.engine.output[0]]))
  }

  /** A sequence of FIFO accesses in any order, None if one of them is not legal. */
  function Accesses(e: KeyedCipher, s: Engine, events: seq<Event>): Option<Outcome> {
    if events == [] then Some(Outcome(s, [], []))
    else
      match Accesses(e, s, events[..|events| - 1])
      case None => None
      case Some(o) => Apply(e, o, events[|events| - 1])
  }

  /** The run of a transfer from the control write that starts it. */
  function TransferRun(e: KeyedCipher, s: Engine, val: Control, events: seq<Event>): Option<Outcome>
    requires Startable(s, val)
  {
    Accesses(e, WriteControl(e, s, val), events)
  }

  lemma ApplyKeeps(t: Transfer, before: seq<Word>, o: Outcome, event: Event)
    requires Inv(t, before + o.written, o.taken, o.engine) && Legal(o.engine, event)
    ensures var p := Apply(t.e, o, event).value;
            Inv(t, before + p.written, p.taken, p.engine) && Quiet(p.engine) && p.engine.regs == o.engine.regs
  {
    hide Inv, Quiet, WriteInput, ReadOutput;
    match event
    case Write(w) =>
      WriteKeeps(t, before + o.written, o.taken, o.engine, w);
      assert before + (o.written + [w]) == before + o.written + [w];
      WriteKeepsRegisters(t.e, o.engine, w);
    case Read =>
      ReadKeeps(t, before + o.written, o.taken, o.engine);
      ReadKeepsRegisters(t.e, o.engine);
  }

  lemma {:induction false} ConsumeExtraRegisters(e: KeyedCipher, s: Engine)
    ensures ConsumeExtra(e, s).regs == s.regs
    decreases s.remExtra
  {
    if |s.input| >= 4 && s.remExtra > 0 {
      ConsumeExtraRegisters(e, ExtraBlock(e, s));
    }
  }

  lemma {:induction false} ConsumeBlocksRegisters(e: KeyedCipher, s: Engine)
    ensures ConsumeBlocks(e, s).regs == s.regs
    decreases s.remBlocks
  {
    hide PushAll, WordsOf, Crypted;
    if |s.input| >= 4 && |s.output| <= 12 && s.remBlocks > 0 {
      ConsumeBlocksRegisters(e, PayloadBlock(e, s));
    }
  }

  lemma UpdateRegisters(e: KeyedCipher, s: Engine)
    ensures Update(e, s).regs == s.regs
  {
    hide ConsumeExtra, ConsumeBlocks, FinalMac, PushAll, WordsOf;
    ConsumeExtraRegisters(e, s);
    ConsumeBlocksRegisters(e, ConsumeExtra(e, s));
  }

  lemma WriteKeepsRegisters(e: KeyedCipher, s: Engine, w: Word)
    ensures WriteInput(e, s, w).regs == s.regs
  {
    hide Update;
    UpdateRegisters(e, s.(input := Push(s.input, w)));
  }

  lemma ReadKeepsRegisters(e: KeyedCipher, s: Engine)
    requires s.output != []
    ensures ReadOutput(e, s).regs == s.regs
  {
    hide Update, PushAll, WordsOf;
    UpdateRegisters(e, s.(output := s.output[1..]));
  }

  // ---------------------------------------------------------------- any interleaving

  /**
   * After any legal sequence of FIFO accesses the state of a transfer is the one
   * that the words supplied so far determine, in whatever order they were
   * supplied and results were read: no word is lost, and as soon as something
   * was accessed the engine has done all it can.
   */
  lemma {:induction false} EveryInterleaving(e: KeyedCipher, s: Engine, val: Control, events: seq<Event>)
    requires Startable(s, val) && TransferOf(e, s, val).Valid() && TransferRun(e, s, val, events).Some?
    ensures var o := TransferRun(e, s, val, events).value;
            && Inv(TransferOf(e, s, val), s.input + o.written, o.taken, o.engine)
            && (events != [] ==> Quiet(o.engine))
            && o.engine.regs == KeySelected(s.regs, val)
  {
    hide Inv, Quiet, WriteControl, Apply;
    var t := TransferOf(e, s, val);
    if events == [] {
      StartKeeps(e, s, val);
      assert s.input + [] == s.input;
    } else {
      EveryInterleaving(e, s, val, events[..|events| - 1]);
      var o := TransferRun(e, s, val, events[..|events| - 1]).value;
      LegalIfApplied(e, o, events[|events| - 1]);
      ApplyKeeps(t, s.input, o, events[|events| - 1]);
    }
  }

  lemma LegalIfApplied(e: KeyedCipher, o: Outcome, event: Event)
    requires Apply(e, o, event).Some?
    ensures Legal(o.engine, event)
  {
  }

  // ---------------------------------------------------------------- progress and completion

  /**
   * Right after the start some access is legal unless the input FIFO was filled
   * up beforehand and the output FIFO is empty: nothing runs the engine then.
   */
  lemma StartStuck(e: KeyedCipher, s: Engine, val: Control)
    requires Startable(s, val) && TransferOf(e, s, val).Valid()
    ensures (exists event :: Legal(WriteControl(e, s, val), event)) <==> |s.input| < 16 || |s.output| > 0
    ensures WriteControl(e, s, val).busy
  {
    hide Reversed, NonceOf, FirstMacBlock;
    var s1 := WriteControl(e, s, val);
    assert s1.input == s.input && s1.output == s.output;
    var w: Word := [0, 0, 0, 0];
    assert Legal(s1, Write(w)) <==> |s.input| < 16;
    assert Legal(s1, Read) <==> |s.output| > 0;
  }

  /** After the first access, an unfinished transfer can always be given a word or read from. */
  lemma NeverStuck(e: KeyedCipher, s: Engine, val: Control, events: seq<Event>)
    requires Startable(s, val) && TransferOf(e, s, val).Valid() && TransferRun(e, s, val, events).Some?
    requires events != [] && TransferRun(e, s, val, events).value.engine.busy
    ensures var o := TransferRun(e, s, val, events).value;
            && o.engine.remExtra + o.engine.remBlocks > 0
            && (forall w: Word :: |o.engine.input| < 4 ==> Legal(o.engine, Write(w)))
            && (|o.engine.input| >= 4 ==> Legal(o.engine, Read))
  {
    hide Running, Done, TransferRun;
    EveryInterleaving(e, s, val, events);
  }

  /**
   * Once all input is supplied and the output FIFO has been drained, the
   * transfer is finished, and exactly the expected words have come out: what was
   * left over, the result, and for an encryption the authentication value.
   */
  lemma DrainedMeansComplete(e: KeyedCipher, s: Engine, val: Control, events: seq<Event>)
    requires Startable(s, val) && TransferOf(e, s, val).Valid() && TransferRun(e, s, val, events).Some?
    requires var (t, o) := (TransferOf(e, s, val), TransferRun(e, s, val, events).value);
             events != [] && o.engine.output == [] && |s.input + o.written| >= 4 * (t.extra + t.blocks)
    ensures var (t, o) := (TransferOf(e, s, val), TransferRun(e, s, val, events).value);
            && !o.engine.busy && !o.engine.outputMacDue
            && o.taken == s.output + WordsOfAll(Output(t, s.input + o.written, t.blocks))
                          + if t.mode == CCM_ENCRYPT then WordsOf(TransferTag(t, s.input + o.written)) else []
  {
    hide Outputs, Context, Output, WordsOfAll, WordsOf, TransferTag, TransferRun;
    EveryInterleaving(e, s, val, events);
    var (t, o) := (TransferOf(e, s, val), TransferRun(e, s, val, events).value);
    if o.engine.busy {
      assert false;
    }
    assert o.taken + o.engine.output == o.taken;
  }

  lemma DoneStays(t: Transfer, words: seq<Word>, taken: seq<Word>, o: Outcome, event: Event)
    requires Done(t, words, taken, o.engine) && Legal(o.engine, event)
    ensures var s := Apply(t.e, o, event).value.engine;
            !s.busy && s.macOk == o.engine.macOk && s.curMac == o.engine.curMac && s.outputMac == o.engine.outputMac
  {
    hide PushAll, WordsOf, Reversed, TransferTag, WordsOfAll, Output;
  }

  /** A finished transfer stays finished: its authentication value is settled once. */
  lemma FinishedOnce(e: KeyedCipher, s: Engine, val: Control, events: seq<Event>, event: Event)
    requires Startable(s, val) && TransferOf(e, s, val).Valid() && TransferRun(e, s, val, events + [event]).Some?
    ensures TransferRun(e, s, val, events).Some?
    ensures var (o, p) := (TransferRun(e, s, val, events).value, TransferRun(e, s, val, events + [event]).value);
            !o.engine.busy ==>
              !p.engine.busy && p.engine.macOk == o.engine.macOk && p.engine.curMac == o.engine.curMac
              && p.engine.outputMac == o.engine.outputMac
  {
    assert (events + [event])[..|events|] == events;
    hide Done, Running, WriteControl, Apply;
    EveryInterleaving(e, s, val, events);
    var o := TransferRun(e, s, val, events).value;
    LegalIfApplied(e, o, event);
    if !o.engine.busy {
      DoneStays(TransferOf(e, s, val), s.input + o.written, o.taken, o, event);
    }
  }

  // ---------------------------------------------------------------- RFC 3610

  /** What a finished run produced after the leftover words. */
  function Produced(s: Engine, o: Outcome): seq<Word>
    requires |s.output| <= |o.taken + o.engine.output|
  {
    (o.taken + o.engine.output)[|s.output|..]
  }

  lemma CounterOfCcm(t: Transfer, blocks: seq<Block>)
    requires t.mode < 2
    ensures Stream(Enc(t), CounterOf(t), blocks) == Crypt(Enc(t), NonceOf(t.iv), blocks)
  {
  }

  /**
   * Encryption is CCM encryption as in RFC 3610: the blocks after the extra ones
   * come out encrypted with counters 1, 2, ..., followed by the authentication
   * value of the extra blocks and the plaintext.
   */
  lemma EncryptsAsRfc3610(e: KeyedCipher, s: Engine, val: Control, events: seq<Event>)
    requires Startable(s, val) && TransferOf(e, s, val).Valid() && TransferRun(e, s, val, events).Some?
    requires val.mode == CCM_ENCRYPT
    requires !TransferRun(e, s, val, events).value.engine.busy
             && !TransferRun(e, s, val, events).value.engine.outputMacDue
    ensures var (t, o) := (TransferOf(e, s, val), TransferRun(e, s, val, events).value);
            var words := s.input + o.written;
            && 4 * (t.extra + t.blocks) <= |words|
            && var (extra, plain) := (Inputs(words, 0, t.extra), Inputs(words, t.extra, t.blocks));
            && |s.output| <= |o.taken + o.engine.output|
            && Produced(s, o) == WordsOfAll(Crypt(Enc(t), NonceOf(t.iv), plain))
                                 + WordsOf(Tag(Enc(t), NonceOf(t.iv), t.macLength, extra, plain))
  {
    hide Stream, WordsOfAll, WordsOf, Tag, Inputs, TransferRun, Reversed, NonceOf;
    EveryInterleaving(e, s, val, events);
    var (t, o) := (TransferOf(e, s, val), TransferRun(e, s, val, events).value);
    var words := s.input + o.written;
    CounterOfCcm(t, Inputs(words, t.extra, t.blocks));
    DropLeftover(
      s.output, WordsOfAll(Output(t, words, t.blocks)), WordsOf(TransferTag(t, words)), o.taken + o.engine.output);
  }

  lemma DropLeftover(a: seq<Word>, b: seq<Word>, c: seq<Word>, all: seq<Word>)
    requires all == a + b + c
    ensures all[|a|..] == b + c
  {
  }

  /**
   * Decryption is CCM decryption, and bit 21 is set exactly if the MAC registers
   * hold the (byte-reversed) authentication value of what was decrypted.
   */
  lemma DecryptsAsRfc3610(e: KeyedCipher, s: Engine, val: Control, events: seq<Event>)
    requires Startable(s, val) && TransferOf(e, s, val).Valid() && TransferRun(e, s, val, events).Some?
    requires val.mode == CCM_DECRYPT && !TransferRun(e, s, val, events).value.engine.busy
    ensures var (t, o) := (TransferOf(e, s, val), TransferRun(e, s, val, events).value);
            var words := s.input + o.written;
            && 4 * (t.extra + t.blocks) <= |words|
            && var extra := Inputs(words, 0, t.extra);
            var plain := Crypt(Enc(t), NonceOf(t.iv), Inputs(words, t.extra, t.blocks));
            && |s.output| <= |o.taken + o.engine.output|
            && Produced(s, o) == WordsOfAll(plain)
            && (o.engine.macOk <==> s.regs.mac == Reversed(Tag(Enc(t), NonceOf(t.iv), t.macLength, extra, plain)))
  {
    hide Stream, WordsOfAll, WordsOf, Tag, Inputs, TransferRun, Reversed, NonceOf;
    EveryInterleaving(e, s, val, events);
    var (t, o) := (TransferOf(e, s, val), TransferRun(e, s, val, events).value);
    var words := s.input + o.written;
    CounterOfCcm(t, Inputs(words, t.extra, t.blocks));
    DropLeftover(s.output, WordsOfAll(Output(t, words, t.blocks)), [], o.taken + o.engine.output);
  }

  /** Two finished transfers, the second decrypting what the first one encrypted. */
  ghost predicate Inverse(
    e: KeyedCipher, s1: Engine, val1: Control, o1: Outcome, s2: Engine, val2: Control, o2: Outcome)
    requires Startable(s1, val1) && Startable(s2, val2)
  {
    var (t1, t2) := (TransferOf(e, s1, val1), TransferOf(e, s2, val2));
    && val1.mode == CCM_ENCRYPT && val2.mode == CCM_DECRYPT && t1.Valid()
    && t2 == t1.(mode := CCM_DECRYPT, leftover := s2.output)
    && !o1.engine.busy && !o1.engine.outputMacDue && !o2.engine.busy
    && |s1.output| + 4 * t1.blocks + 4 == |o1.taken + o1.engine.output|
    && 4 * (t1.extra + t1.blocks) <= |s1.input + o1.written|
    && 4 * (t1.extra + t1.blocks) <= |s2.input + o2.written|
    && (s2.input + o2.written)[..4 * (t1.extra + t1.blocks)]
       == (s1.input + o1.written)[..4 * t1.extra] + Produced(s1, o1)[..4 * t1.blocks]
    && s2.regs.mac == Reversed(BlockOf(Produced(s1, o1)[4 * t1.blocks..]))
  }

  lemma SplitWords(words: seq<Word>, head: seq<Word>, middle: seq<Word>)
    requires |head| + |middle| <= |words| && words[..|head| + |middle|] == head + middle
    ensures words == head + middle + words[|head| + |middle|..] == head + (middle + words[|head| + |middle|..])
  {
    assert words == words[..|head| + |middle|] + words[|head| + |middle|..];
  }

  /** The input blocks of a decryption that is fed extra data and a ciphertext. */
  lemma FedBlocks(words: seq<Word>, first: seq<Word>, extra: nat, cipher: seq<Block>)
    requires 4 * extra <= |first| && 4 * (extra + |cipher|) <= |words|
    requires words[..4 * (extra + |cipher|)] == first[..4 * extra] + WordsOfAll(cipher)
    ensures Inputs(words, 0, extra) == Inputs(first, 0, extra) && Inputs(words, extra, |cipher|) == cipher
  {
    hide InputBlock, WordsOfAll, Inputs;
    var (head, rest) := (first[..4 * extra], words[4 * (extra + |cipher|)..]);
    SplitWords(words, head, WordsOfAll(cipher));
    InputsOfWords(head, cipher, rest, extra);
    SamePrefix(words, head, WordsOfAll(cipher) + rest, extra);
    SamePrefix(first, head, first[4 * extra..], extra);
  }

  lemma SamePrefix(words: seq<Word>, head: seq<Word>, tail: seq<Word>, extra: nat)
    requires words == head + tail && |head| == 4 * extra
    ensures Inputs(words, 0, extra) == Inputs(head, 0, extra)
  {
    InputsGrow(head, tail, 0, extra);
  }

  /**
   * The round trip: decrypting, with the same key, nonce, counts and MAC length,
   * the extra data followed by what an encryption produced, with the emitted
   * authentication value in the MAC registers, returns the plaintext words and
   * sets bit 21, however the FIFO accesses of either transfer were interleaved.
   */
  lemma RoundTrip(e: KeyedCipher, s1: Engine, val1: Control, events1: seq<Event>,
                  s2: Engine, val2: Control, events2: seq<Event>)
    requires Startable(s1, val1) && TransferRun(e, s1, val1, events1).Some?
    requires Startable(s2, val2) && TransferRun(e, s2, val2, events2).Some?
    requires Inverse(e, s1, val1, TransferRun(e, s1, val1, events1).value, s2, val2,
             TransferRun(e, s2, val2, events2).value)
    ensures var (t, o1, o2) := (TransferOf(e, s1, val1), TransferRun(e, s1, val1, events1).value,
                                TransferRun(e, s2, val2, events2).value);
            && |s2.output| <= |o2.taken + o2.engine.output|
            && Produced(s2, o2) == (s1.input + o1.written)[4 * t.extra..4 * (t.extra + t.blocks)]
            && o2.engine.macOk
  {
    hide Stream, WordsOfAll, WordsOf, BlockOf, Tag, Inputs, TransferRun, Reversed, NonceOf, Produced, Crypt;
    var (t, o1, o2) := (TransferOf(e, s1, val1), TransferRun(e, s1, val1, events1).value,
                        TransferRun(e, s2, val2, events2).value);
    var (w1, w2) := (s1.input + o1.written, s2.input + o2.written);
    EncryptsAsRfc3610(e, s1, val1, events1);
    DecryptsAsRfc3610(e, s2, val2, events2);
    var (extra, plain) := (Inputs(w1, 0, t.extra), Inputs(w1, t.extra, t.blocks));
    var cipher := Crypt(Enc(t), NonceOf(t.iv), plain);
    var tag := Tag(Enc(t), NonceOf(t.iv), t.macLength, extra, plain);
    CryptTwice(Enc(t), NonceOf(t.iv), plain);
    assert Produced(s1, o1)[..4 * t.blocks] == WordsOfAll(cipher) && Produced(s1, o1)[4 * t.blocks..] == WordsOf(tag);
    FedBlocks(w2, w1, t.extra, cipher);
    BlockOfWords(tag);
    WordsOfInputs(w1, t.extra, t.blocks);
  }

  lemma CryptTwice(e: Cipher, nonce: Nonce, blocks: seq<Block>)
    ensures |Crypt(e, nonce, blocks)| == |blocks| && Crypt(e, nonce, Crypt(e, nonce, blocks)) == blocks
  {
    StreamCancels(e, Counters(nonce), blocks);
  }

  // ---------------------------------------------------------------- counter mode

  /** Counter i of a counter-mode transfer is the initial one plus i, but for wrapping around 2^128. */
  lemma {:induction false} AdvanceAdds(b: Block, i: nat) returns (wraps: nat)
    ensures Value(b) + i == wraps * Power256(16) + Value(Advance(b, i)) && Value(Advance(b, i)) < Power256(16)
  {
    hide Power256, Value, Increment;
    ValueBelow(Advance(b, i));
    if i == 0 {
      wraps := 0;
    } else {
      wraps := AdvanceAdds(b, i - 1);
      IncrementAddsOne(Advance(b, i - 1));
      if Value(Advance(b, i - 1)) + 1 == Power256(16) {
        assert (wraps + 1) * Power256(16) == wraps * Power256(16) + Power256(16);
        wraps := wraps + 1;
      }
    }
  }

  /** Counter mode: each block comes out xored with the encrypted 128-bit counter, so it undoes itself. */
  lemma CounterMode(e: KeyedCipher, s: Engine, val: Control, events: seq<Event>, i: nat)
    requires Startable(s, val) && TransferOf(e, s, val).Valid() && TransferRun(e, s, val, events).Some?
    requires val.mode >= 2 && !TransferRun(e, s, val, events).value.engine.busy
    requires i < s.regs.blkCnt / 65536
    ensures var (t, o) := (TransferOf(e, s, val), TransferRun(e, s, val, events).value);
            var words := s.input + o.written;
            && 4 * t.blocks <= |words|
            && |s.output| + 4 * t.blocks == |o.taken + o.engine.output|
            && InputBlock(Produced(s, o), i) == Xor(InputBlock(words, i), t.e(t.key, Advance(Reversed(t.iv), i)))
  {
    hide WordsOfAll, WordsOf, Inputs, TransferRun, Reversed, NonceOf, Xor, Advance, BlockOf;
    EveryInterleaving(e, s, val, events);
    var (t, o) := (TransferOf(e, s, val), TransferRun(e, s, val, events).value);
    var words := s.input + o.written;
    var out := Output(t, words, t.blocks);
    DropLeftover(s.output, WordsOfAll(out), [], o.taken + o.engine.output);
    assert [] + WordsOfAll(out) + [] == Produced(s, o);
    InputsOfWords([], out, [], 0);
    InputsAt(Produced(s, o), 0, t.blocks, i);
    InputsAt(words, 0, t.blocks, i);
  }

  lemma {:induction false} InputsAt(words: seq<Word>, from: nat, n: nat, i: nat)
    requires 4 * (from + n) <= |words| && i < n
    ensures Inputs(words, from, n)[i] == InputBlock(words, from + i)
  {
    if i < n - 1 {
      InputsAt(words, from, n - 1, i);
    }
  }
}
