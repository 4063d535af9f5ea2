/**
 * The Action Replay cheat interpreter: one loop over pairs of words with a
 * condition register and its 32-deep stack, one hardware loop, and copy
 * operations whose data sits in the code itself.
 */
module ARCheat {
  import opened Basics

  datatype Width = W8 | W16 | W32

  function Low(width: Width, x: nat): nat {
    match width
    case W8 => x % 0x100
    case W16 => x % 0x1_0000
    case W32 => x % 0x1_0000_0000
  }

  /** The ARM7 bus; reading may have effects too. */
  datatype Bus<!S> = Bus(read: (S, u32, Width) -> (nat, S), write: (S, u32, Width, nat) -> S)

  /** The interpreter's variables, and the machine behind the bus. */
  datatype State<S> = State(
    pc: nat, offset: u32, datareg: u32, cond: bool, condstack: u32, loopstart: nat, loopcount: u32,
    loopcond: bool, loopcondstack: u32, c5count: u32, mem: S)

  function InitialState<S>(mem: S): State<S> { State(0, 0, 0, true, 0, 0, 0, true, 0, 0, mem) }

  // ---------------------------------------------------------------- decoding

  function Op(a: u32): int { a / 0x100_0000 }

  function Address(a: u32): u32 { a % 0x1000_0000 }

  predicate IsCopyIn(a: u32) { 0xE0 <= Op(a) < 0xF0 }

  /** Words of data that follow a copy operation of b bytes: whole pairs. */
  function DataWords(b: u32): nat { 2 * ((b + 7) / 8) }

  /** Words that the operation at pc takes up, with its data. */
  function Length(code: seq<u32>, pc: nat): (n: nat)
    requires pc + 2 <= |code|
    ensures n >= 2
  {
    2 + if IsCopyIn(code[pc]) then DataWords(code[pc + 1]) else 0
  }

  /** Decoding linearly from pc arrives exactly at the end: even length, and the copied data fits. */
  predicate Decodes(code: seq<u32>, pc: nat)
    decreases |code| - pc
  {
    pc == |code| || (pc + 2 <= |code| && pc + Length(code, pc) <= |code| && Decodes(code, pc + Length(code, pc)))
  }

  /** pc is an instruction boundary of the linear decode from `from`. */
  predicate Boundary(code: seq<u32>, from: nat, pc: nat)
    decreases |code| - from
  {
    pc == from || (from + 2 <= |code| && Boundary(code, from + Length(code, from), pc))
  }

  lemma {:induction false} BoundaryDecodes(code: seq<u32>, from: nat, pc: nat)
    requires Decodes(code, from) && Boundary(code, from, pc)
    ensures Decodes(code, pc) && from <= pc
    decreases |code| - from
  {
    if pc != from {
      BoundaryDecodes(code, from + Length(code, from), pc);
    }
  }

  lemma {:induction false} BoundaryNext(code: seq<u32>, from: nat, pc: nat)
    requires Boundary(code, from, pc) && pc + 2 <= |code|
    ensures Boundary(code, from, pc + Length(code, pc))
    decreases |code| - from
  {
    if pc != from {
      BoundaryNext(code, from + Length(code, from), pc);
    } else {
      assert Boundary(code, from + Length(code, from), from + Length(code, from));
    }
  }

  // ---------------------------------------------------------------- copying

  /** The low, second, third and high byte of a word in memory order. */
  function ByteAt(word: u32, i: int): nat
    requires 0 <= i < 4
  {
    if i == 0 then word % 0x100 else if i == 1 then word / 0x100 % 0x100
    else if i == 2 then word / 0x1_0000 % 0x100 else word / 0x100_0000
  }

  /** n words of the code to consecutive addresses. */
  function WordsIn<S>(bus: Bus<S>, mem: S, dst: u32, words: seq<u32>, n: nat): S
    requires n <= |words|
  {
    if n == 0 then mem else bus.write(WordsIn(bus, mem, dst, words, n - 1), Wrap(dst + 4 * (n - 1)), W32, words[n - 1])
  }

  /** n bytes of one word to consecutive addresses. */
  function BytesIn<S>(bus: Bus<S>, mem: S, dst: u32, word: u32, n: nat): S
    requires n <= 4
  {
    if n == 0 then mem else bus.write(BytesIn(bus, mem, dst, word, n - 1), Wrap(dst + n - 1), W8, ByteAt(word, n - 1))
  }

  /** Copy b bytes of code: as many words as there are, then the bytes left. */
  function CopyIn<S>(bus: Bus<S>, mem: S, dst: u32, words: seq<u32>, b: u32): S
    requires b <= 4 * |words|
  {
    var n := b / 4;
    var t := WordsIn(bus, mem, dst, words, n);
    if b % 4 == 0 then t else BytesIn(bus, t, Wrap(dst + 4 * n), words[n], b % 4)
  }

  /** n elements of one width from one address range to another, one at a time. */
  function CopyUnits<S>(bus: Bus<S>, mem: S, src: u32, dst: u32, width: Width, size: nat, n: nat): S {
    if n == 0 then mem
    else
      var (v, t) := bus.read(CopyUnits(bus, mem, src, dst, width, size, n - 1), Wrap(src + size * (n - 1)), width);
      bus.write(t, Wrap(dst + size * (n - 1)), width, Low(width, v))
  }

  function CopyWithin<S>(bus: Bus<S>, mem: S, src: u32, dst: u32, b: u32): S {
    var n := b / 4;
    CopyUnits(bus, CopyUnits(bus, mem, src, dst, W32, 4, n), Wrap(src + 4 * n), Wrap(dst + 4 * n), W8, 1, b % 4)
  }

  // ---------------------------------------------------------------- one operation

  function Read<S>(bus: Bus<S>, s: State<S>, addr: u32, width: Width): (nat, State<S>) {
    var (v, t) := bus.read(s.mem, addr, width);
    (Low(width, v), s.(mem := t))
  }

  function Write<S>(bus: Bus<S>, s: State<S>, addr: u32, width: Width, v: nat): State<S> {
    s.(mem := bus.write(s.mem, addr, width, Low(width, v)))
  }

  /** The condition goes onto the stack, which forgets its 33rd entry. */
  function Push<S>(s: State<S>): State<S> {
    s.(condstack := Wrap(2 * s.condstack) + if s.cond then 1 else 0)
  }

  function Pop<S>(s: State<S>): State<S> { s.(cond := s.condstack % 2 == 1, condstack := s.condstack / 2) }

  /** Bits of b.l that the mask b.h leaves of a halfword: the original computes them as `~b.h & value`. */
  function Masked(mask: nat, value: nat): nat {
    if mask == 0 && value == 0 then 0
    else (if value % 2 == 1 && mask % 2 == 0 then 1 else 0) + 2 * Masked(mask / 2, value / 2)
  }

  function Anded(x: nat, y: nat): nat {
    if x == 0 || y == 0 then 0 else (if x % 2 == 1 && y % 2 == 1 then 1 else 0) + 2 * Anded(x / 2, y / 2)
  }

  predicate Compare(kind: int, left: nat, right: nat) {
    if kind == 0 then left > right
    else if kind == 1 then left < right
    else if kind == 2 then left == right
    else left != right
  }

  function IfWord<S>(bus: Bus<S>, s: State<S>, a: u32, b: u32): State<S> {
    var (chk, t) := Read(bus, Push(s), if Address(a) == 0 then s.offset else Address(a), W32);
    t.(cond := Compare(Op(a) / 16 - 3, b, chk))
  }

  function IfHalf<S>(bus: Bus<S>, s: State<S>, a: u32, b: u32): State<S> {
    var (val, t) := Read(bus, Push(s), if Address(a) == 0 then s.offset else Address(a), W16);
    t.(cond := Compare(Op(a) / 16 - 7, b % 0x1_0000, Masked(b / 0x1_0000, val)))
  }

  /** NEXT: back to the loop start while the count lasts. */
  function Next<S>(s: State<S>, after: State<S>): State<S> {
    if s.loopcount > 0 then s.(loopcount := s.loopcount - 1, pc := s.loopstart) else after
  }

  datatype Result<S> = Go(state: State<S>) | Stop(state: State<S>)

  /** Operations C0 to DC. */
  function Special<S>(bus: Bus<S>, s: State<S>, op: int, b: u32): Result<S> {
    if op == 0xC0 then
      Go(s.(loopstart := s.pc, loopcount := b, loopcond := s.cond, loopcondstack := s.condstack))
    else if op == 0xC5 then
      var t := s.(c5count := Wrap(s.c5count + 1));
      if !s.cond then Go(t)
      else Go(Push(t).(cond := Anded(t.c5count, b % 0x1_0000) == b / 0x1_0000))
    else if op == 0xC6 then Go(Write(bus, s, b, W32, s.offset))
    else if op == 0xD0 then Go(Pop(s))
    else if op == 0xD1 then Go(Next(s, s.(cond := s.loopcond, condstack := s.loopcondstack)))
    else if op == 0xD2 then Go(Next(s, s.(offset := 0, datareg := 0, condstack := 0, cond := true)))
    else if op == 0xD3 then Go(s.(offset := b))
    else if op == 0xD4 then Go(s.(datareg := Wrap(s.datareg + b)))
    else if op == 0xD5 then Go(s.(datareg := b))
    else if op == 0xD6 then Go(Write(bus, s, Wrap(b + s.offset), W32, s.datareg).(offset := Wrap(s.offset + 4)))
    else if op == 0xD7 then Go(Write(bus, s, Wrap(b + s.offset), W16, s.datareg).(offset := Wrap(s.offset + 2)))
    else if op == 0xD8 then Go(Write(bus, s, Wrap(b + s.offset), W8, s.datareg).(offset := Wrap(s.offset + 1)))
    else if op == 0xD9 then Go(Loaded(bus, s, b, W32))
    else if op == 0xDA then Go(Loaded(bus, s, b, W16))
    else if op == 0xDB then Go(Loaded(bus, s, b, W8))
    else if op == 0xDC then Go(s.(offset := Wrap(s.offset + b)))
    else Stop(s)
  }

  function Loaded<S>(bus: Bus<S>, s: State<S>, b: u32, width: Width): State<S> {
    var (v, t) := Read(bus, s, Wrap(b + s.offset), width);
    t.(datareg := Wrap(v))
  }

  /** Every operation that has no data in the code; pc is already past the pair. */
  function Execute<S>(bus: Bus<S>, s: State<S>, a: u32, b: u32): Result<S> {
    var op := Op(a);
    var addr := Wrap(Address(a) + s.offset);
    if op < 0x10 then Go(Write(bus, s, addr, W32, b))
    else if op < 0x20 then Go(Write(bus, s, addr, W16, b))
    else if op < 0x30 then Go(Write(bus, s, addr, W8, b))
    else if op < 0x70 then Go(IfWord(bus, s, a, b))
    else if op < 0xB0 then Go(IfHalf(bus, s, a, b))
    else if op < 0xC0 then
      var (v, t) := Read(bus, s, addr, W32);
      Go(t.(offset := Wrap(v)))
    else if op < 0xF0 then Special(bus, s, op, b)
    else Go(s.(mem := CopyWithin(bus, s.mem, s.offset, Address(a), b)))
  }

  /** A false condition skips everything but the C5 test and the operations D0 to D2. */
  predicate Skips(cond: bool, op: int) { !cond && ((op < 0xD0 && op != 0xC5) || op > 0xD2) }

  /** One turn of the interpreter's loop. */
  function Turn<S>(bus: Bus<S>, code: seq<u32>, s: State<S>): Result<S>
    requires Decodes(code, s.pc) && s.pc < |code|
  {
    var (a, b) := (code[s.pc], code[s.pc + 1]);
    var t := s.(pc := s.pc + 2);
    if Skips(s.cond, Op(a)) then Go(s.(pc := s.pc + Length(code, s.pc)))
    else if IsCopyIn(a) then
      var data := code[t.pc..t.pc + DataWords(b)];
      Go(t.(pc := t.pc + DataWords(b), mem := CopyIn(bus, t.mem, Wrap(Address(a) + t.offset), data, b)))
    else Execute(bus, t, a, b)
  }

  // ---------------------------------------------------------------- termination and alignment

  /** Both code pointers are on boundaries of the linear decode, the loop start not ahead. */
  predicate Aligned<S>(code: seq<u32>, s: State<S>) {
    Boundary(code, 0, s.pc) && Boundary(code, 0, s.loopstart) && s.loopstart <= s.pc
  }

  /** The three numbers that go down lexicographically with every turn. */
  predicate Descends<S>(code: seq<u32>, s: State<S>, t: State<S>) {
    || t.loopstart > s.loopstart
    || (t.loopstart == s.loopstart && t.loopcount < s.loopcount)
    || (t.loopstart == s.loopstart && t.loopcount == s.loopcount && t.pc > s.pc)
  }

  lemma SpecialTurns<S>(bus: Bus<S>, s: State<S>, op: int, b: u32)
    ensures var t := Special(bus, s, op, b).state;
            || (t.pc == s.pc && t.loopstart == s.loopstart && t.loopcount == s.loopcount)
            || (t.pc == s.pc && t.loopstart == s.pc)
            || (t.pc == s.loopstart && t.loopstart == s.loopstart && t.loopcount < s.loopcount)
  {
    hide Wrap, Anded, Low;
  }

  lemma ExecuteTurns<S>(bus: Bus<S>, s: State<S>, a: u32, b: u32)
    ensures var t := Execute(bus, s, a, b).state;
            || (t.pc == s.pc && t.loopstart == s.loopstart && t.loopcount == s.loopcount)
            || (t.pc == s.pc && t.loopstart == s.pc)
            || (t.pc == s.loopstart && t.loopstart == s.loopstart && t.loopcount < s.loopcount)
  {
    hide Wrap, Masked, Low, Special, CopyWithin, Op, Address;
    SpecialTurns(bus, s, Op(a), b);
  }

  /**
   * Whatever memory holds, every turn of the loop lands on instruction
   * boundaries of the linear decode again, and makes progress: the loop start
   * moves forward, or the loop count goes down, or the code pointer moves on.
   */
  lemma TurnsAligned<S>(bus: Bus<S>, code: seq<u32>, s: State<S>)
    requires Decodes(code, 0) && Aligned(code, s) && s.pc < |code|
    ensures Decodes(code, s.pc)
    ensures var t := Turn(bus, code, s).state; Aligned(code, t) && Decodes(code, t.pc) && Descends(code, s, t)
  {
    hide Execute, Op, Skips, DataWords, CopyIn, Wrap, Address;
    BoundaryDecodes(code, 0, s.pc);
    BoundaryNext(code, 0, s.pc);
    ExecuteTurns(bus, s.(pc := s.pc + 2), code[s.pc], code[s.pc + 1]);
    BoundaryDecodes(code, 0, Turn(bus, code, s).state.pc);
  }

  /** The whole run; that this function is well defined is the termination theorem. */
  function Interpret<S>(bus: Bus<S>, code: seq<u32>, s: State<S>): (t: State<S>)
    requires Decodes(code, 0) && Aligned(code, s)
    ensures Aligned(code, t)
    decreases |code| - s.loopstart, s.loopcount, |code| - s.pc
  {
    if s.pc >= |code| then s
    else
      TurnsAligned(bus, code, s);
      BoundaryDecodes(code, 0, Turn(bus, code, s).state.loopstart);
      BoundaryDecodes(code, 0, s.loopstart);
      match Turn(bus, code, s)
      case Go(t) => DecodedWithin(code, t.pc); Interpret(bus, code, t)
      case Stop(t) => t
  }

  lemma {:induction false} DecodedWithin(code: seq<u32>, pc: nat)
    requires Decodes(code, pc)
    ensures pc <= |code|
  {
  }

  // ---------------------------------------------------------------- the interpreter's loops

  /** The skipping loop counts bytes in a 32-bit variable, which the data's size keeps from wrapping. */
  method SkipData(code: seq<u32>, pc: nat, b: u32) returns (next: nat)
    requires b <= 0x1_0000_0000 - 8
    ensures next == pc + DataWords(b)
  {
    next := pc;
    var i: u32 := 0;
    while i < b
      invariant i % 8 == 0 && next == pc + 2 * (i / 8) && i < b + 8
    {
      next := next + 2;
      i := i + 8;
    }
  }

  lemma BytesInStep<S>(bus: Bus<S>, mem: S, dst: u32, word: u32, k: nat)
    requires k < 4
    ensures BytesIn(bus, mem, dst, word, k + 1)
            == bus.write(BytesIn(bus, mem, dst, word, k), Wrap(dst + k), W8, ByteAt(word, k))
  {
  }

  lemma TwoWordsIn<S>(bus: Bus<S>, mem: S, dst: u32, words: seq<u32>, n: nat)
    requires n + 2 <= |words|
    ensures WordsIn(bus, mem, dst, words, n + 2)
            == bus.write(bus.write(WordsIn(bus, mem, dst, words, n), Wrap(dst + 4 * n), W32, words[n]),
                         Add(Wrap(dst + 4 * n), 4), W32, words[n + 1])
    ensures Add(Wrap(dst + 4 * n), 8) == Wrap(dst + 4 * (n + 2))
  {
    hide Wrap;
    WrapTwice(dst + 4 * n, 4);
    WrapTwice(dst + 4 * n, 8);
  }

  lemma DataLength(b: u32)
    ensures DataWords(b) == 2 * (b / 8) + if b % 8 > 0 then 2 else 0
  {
  }

  /** The two copying loops of operation E: pairs of words, then what is left of the last pair. */
  method CopyData<S>(bus: Bus<S>, code: seq<u32>, pc: nat, mem0: S, dst: u32, b: u32) returns (next: nat, mem: S)
    requires pc + DataWords(b) <= |code|
    ensures next == pc + DataWords(b)
    ensures mem == CopyIn(bus, mem0, dst, code[pc..next], b)
  {
    hide BytesIn, WordsIn, Wrap, CopyIn, Leftover, Add, DataWords;
    DataLength(b);
    ghost var data := code[pc..pc + DataWords(b)];
    assert forall k :: 0 <= k < |data| ==> data[k] == code[pc + k];
    mem, next := mem0, pc;
    var bytesleft: nat := b;
    var dstaddr := dst;
    NothingIn(bus, mem0, dst, data);
    while bytesleft >= 8
      invariant pc <= next && b == bytesleft + 4 * (next - pc) && (next - pc) % 2 == 0
      invariant dstaddr == Wrap(dst + 4 * (next - pc))
      invariant mem == WordsIn(bus, mem0, dst, data, next - pc)
    {
      TwoWordsIn(bus, mem0, dst, data, next - pc);
      mem := bus.write(mem, dstaddr, W32, code[next]);
      mem := bus.write(mem, Add(dstaddr, 4), W32, code[next + 1]);
      next, dstaddr, bytesleft := next + 2, Add(dstaddr, 8), bytesleft - 8;
    }
    if bytesleft > 0 {
      LeftoverJoins(bus, mem0, dst, data, b, next - pc);
      mem := CopyLeftover(bus, code, next, mem, dstaddr, bytesleft);
      next := next + 2;
    } else {
      OnlyWords(bus, mem0, dst, data, b);
    }
  }

  lemma NothingIn<S>(bus: Bus<S>, mem: S, dst: u32, words: seq<u32>)
    ensures WordsIn(bus, mem, dst, words, 0) == mem && Wrap(dst) == dst
  {
  }

  lemma OnlyWords<S>(bus: Bus<S>, mem: S, dst: u32, data: seq<u32>, b: u32)
    requires |data| == DataWords(b) && b % 8 == 0
    ensures b <= 4 * |data| && CopyIn(bus, mem, dst, data, b) == WordsIn(bus, mem, dst, data, b / 4)
  {
  }

  /** The bytes after the last whole pair: a word if there are four, then single bytes. */
  function Leftover<S>(bus: Bus<S>, mem: S, dst: u32, first: u32, second: u32, n: nat): S
    requires n < 8
  {
    if n >= 4 then BytesIn(bus, bus.write(mem, dst, W32, first), Add(dst, 4), second, n - 4)
    else BytesIn(bus, mem, dst, first, n)
  }

  lemma LeftoverJoins<S>(bus: Bus<S>, mem: S, dst: u32, data: seq<u32>, b: u32, n: nat)
    requires |data| == DataWords(b) && n == 2 * (b / 8) && b % 8 > 0
    ensures n + 1 < |data|
    ensures CopyIn(bus, mem, dst, data, b)
            == Leftover(bus, WordsIn(bus, mem, dst, data, n), Wrap(dst + 4 * n), data[n], data[n + 1], b % 8)
  {
    hide Wrap;
    var (rest, words) := (b % 8, b / 4);
    assert rest >= 4 ==> words == n + 1 && b % 4 == rest - 4;
    assert rest < 4 ==> words == n && b % 4 == rest;
    WrapTwice(dst + 4 * n, 4);
  }

  method CopyLeftover<S>(bus: Bus<S>, code: seq<u32>, at: nat, mem0: S, dst: u32, n: nat) returns (mem: S)
    requires n < 8 && at + 2 <= |code|
    ensures mem == Leftover(bus, mem0, dst, code[at], code[at + 1], n)
  {
    hide ByteAt, Wrap;
    mem := mem0;
    var (leftover, dstaddr, bytesleft) := (at, dst, n);
    if bytesleft >= 4 {
      mem := bus.write(mem, dstaddr, W32, code[leftover]);
      dstaddr, leftover, bytesleft := Add(dstaddr, 4), leftover + 1, bytesleft - 4;
    }
    ghost var (mem1, dst1) := (mem, dstaddr);
    NothingIn(bus, mem, dstaddr, code);
    for k := 0 to bytesleft
      invariant mem == BytesIn(bus, mem1, dst1, code[leftover], k)
      invariant dstaddr == Wrap(dst1 + k)
    {
      WrapTwice(dst1 + k, 1);
      mem := bus.write(mem, dstaddr, W8, ByteAt(code[leftover], k));
      dstaddr := Add(dstaddr, 1);
    }
  }

  /** The interpreter itself. */
  method RunCheat<S>(bus: Bus<S>, code: seq<u32>, mem: S) returns (result: State<S>)
    requires Decodes(code, 0) && |code| <= 0x4000_0000
    ensures result == Interpret(bus, code, InitialState(mem))
  {
    hide Execute, CopyIn, Op, DataWords, Wrap;
    var s := InitialState(mem);
    while s.pc < |code|
      invariant Aligned(code, s) && Interpret(bus, code, s) == Interpret(bus, code, InitialState(mem))
      decreases |code| - s.loopstart, s.loopcount, |code| - s.pc
    {
      TurnsAligned(bus, code, s);
      BoundaryDecodes(code, 0, Turn(bus, code, s).state.loopstart);
      DecodedWithin(code, Turn(bus, code, s).state.pc);
      ghost var before := s;
      var (a, b) := (code[s.pc], code[s.pc + 1]);
      s := s.(pc := s.pc + 2);
      if Skips(s.cond, Op(a)) {
        if IsCopyIn(a) {
          SmallData(code, s.pc, b);
          var next := SkipData(code, s.pc, b);
          s := s.(pc := next);
        }
      } else if IsCopyIn(a) {
        var next, m := CopyData(bus, code, s.pc, s.mem, Wrap(Address(a) + s.offset), b);
        s := s.(pc := next, mem := m);
      } else {
        match Execute(bus, s, a, b)
        case Stop(t) => return t;
        case Go(t) => s := t;
      }
      assert s == Turn(bus, code, before).state;
    }
    result := s;
  }

  lemma SmallData(code: seq<u32>, pc: nat, b: u32)
    requires pc + DataWords(b) <= |code| <= 0x4000_0000 && pc >= 2
    ensures b <= 0x1_0000_0000 - 8
  {
  }

  // ---------------------------------------------------------------- conditions

  /** ENDIF undoes an IF, condition and stack, exactly while no more than 31 conditions were pushed before. */
  lemma EndifUndoesIf<S>(s: State<S>, cond: bool)
    ensures Pop(Push(s).(cond := cond)) == s <==> s.condstack < 0x8000_0000
  {
  }

  /**
   * Skipping does not nest: inside a block whose condition is false, an inner IF
   * is skipped without a push, but the inner ENDIF pops, so the rest of the outer
   * block runs under the condition that was in force outside it.
   */
  lemma SkippedIfIsNotPushed<S>(bus: Bus<S>, code: seq<u32>, s: State<S>)
    requires Decodes(code, s.pc) && s.pc + 4 <= |code| && !s.cond
    requires 0x30 <= Op(code[s.pc]) < 0xB0 && Op(code[s.pc + 2]) == 0xD0
    ensures var t := Turn(bus, code, s);
            t.Go? && t.state == s.(pc := s.pc + 2) && Decodes(code, t.state.pc)
            && Turn(bus, code, t.state) == Go(Pop(s.(pc := s.pc + 4)))
  {
    hide Execute, CopyIn, DataWords, IfWord, IfHalf;
    var t := s.(pc := s.pc + 2);
    assert Decodes(code, t.pc);
    ExecuteEndif(bus, s.(pc := s.pc + 4), code[s.pc + 2], code[s.pc + 3]);
  }

  lemma ExecuteEndif<S>(bus: Bus<S>, s: State<S>, a: u32, b: u32)
    requires Op(a) == 0xD0
    ensures Execute(bus, s, a, b) == Go(Pop(s))
  {
  }
}
