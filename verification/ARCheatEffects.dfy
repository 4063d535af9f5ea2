/**
 * What each cheat operation does, as steps of whole runs: a run from one state
 * is the run from the next.
 */
module ARCheatEffects {
  import opened Basics
  import opened ARCheat

  /** The interpreter is at the pair (a, b) of a code that decodes. */
  predicate Here<S>(code: seq<u32>, s: State<S>, a: u32, b: u32) {
    && Decodes(code, 0) && Aligned(code, s)
    && s.pc + 2 <= |code| && code[s.pc] == a && code[s.pc + 1] == b
  }

  /** The run from s is the run from t. */
  ghost predicate Continues<S>(bus: Bus<S>, code: seq<u32>, s: State<S>, t: State<S>)
    requires Decodes(code, 0)
  {
    Aligned(code, s) && Aligned(code, t) && Interpret(bus, code, s) == Interpret(bus, code, t)
  }

  lemma OneTurn<S>(bus: Bus<S>, code: seq<u32>, s: State<S>)
    requires Decodes(code, 0) && Aligned(code, s) && s.pc < |code|
    ensures Decodes(code, s.pc) && s.pc + Length(code, s.pc) <= |code|
    ensures var r := Turn(bus, code, s);
            if r.Go? then Continues(bus, code, s, r.state) else Interpret(bus, code, s) == r.state
  {
    hide Turn, Length;
    TurnsAligned(bus, code, s);
    assert Decodes(code, s.pc) && s.pc + Length(code, s.pc) <= |code|;
  }

  /** A cheat starts at its first word under a true condition, with everything else zero. */
  lemma Starts<S>(mem: S)
    ensures var s := InitialState(mem);
            && s.pc == s.loopstart == 0 && s.offset == s.datareg == s.condstack == s.loopcount == 0
            && s.loopcondstack == s.c5count == 0 && s.cond && s.loopcond && s.mem == mem
  {
  }

  /** The address that an operation works on. */
  function Effective(a: u32, offset: u32): u32 { (a % 0x1000_0000 + offset) % 0x1_0000_0000 }

  // ---------------------------------------------------------------- writes and offset loads

  /** What a write leaves in memory. */
  function WrittenTo<S>(bus: Bus<S>, s: State<S>, a: u32, b: u32): S {
    var at := Effective(a, s.offset);
    if a < 0x1000_0000 then bus.write(s.mem, at, W32, b)
    else if a < 0x2000_0000 then bus.write(s.mem, at, W16, b % 0x1_0000)
    else bus.write(s.mem, at, W8, b % 0x100)
  }

  lemma WriteExecuted<S>(bus: Bus<S>, s: State<S>, a: u32, b: u32)
    requires a < 0x3000_0000
    ensures Execute(bus, s, a, b) == Go(s.(mem := WrittenTo(bus, s, a, b)))
  {
    hide Special, IfWord, IfHalf, CopyWithin;
  }

  /** 00 to 2F write 32, 16 or 8 bits of b at the address plus the offset, and change nothing else. */
  lemma Writes<S>(bus: Bus<S>, code: seq<u32>, s: State<S>, a: u32, b: u32)
    requires Here(code, s, a, b) && s.cond && a < 0x3000_0000
    ensures Continues(bus, code, s, s.(pc := s.pc + 2, mem := WrittenTo(bus, s, a, b)))
  {
    hide Interpret, Decodes, Boundary, Execute, CopyIn, DataWords, WrittenTo;
    OneTurn(bus, code, s);
    WriteExecuted(bus, s.(pc := s.pc + 2), a, b);
    assert WrittenTo(bus, s.(pc := s.pc + 2), a, b) == WrittenTo(bus, s, a, b) by { SameTarget(bus, s, a, b); }
  }

  lemma SameTarget<S>(bus: Bus<S>, s: State<S>, a: u32, b: u32)
    ensures WrittenTo(bus, s.(pc := s.pc + 2), a, b) == WrittenTo(bus, s, a, b)
  {
  }

  /** B0 to BF load the offset from the address plus the offset. */
  lemma LoadsOffset<S>(bus: Bus<S>, code: seq<u32>, s: State<S>, a: u32, b: u32)
    requires Here(code, s, a, b) && s.cond && 0xB000_0000 <= a < 0xC000_0000
    ensures var (v, mem) := bus.read(s.mem, Effective(a, s.offset), W32);
            Continues(bus, code, s, s.(pc := s.pc + 2, mem := mem, offset := v % 0x1_0000_0000))
  {
    hide Interpret, Decodes, Boundary;
    OneTurn(bus, code, s);
  }

  // ---------------------------------------------------------------- conditions

  /** The address that an IF reads: its own, or the offset if that is zero. */
  function Tested(a: u32, offset: u32): u32 { if a % 0x1000_0000 == 0 then offset else a % 0x1000_0000 }

  /** The condition stack with the condition in force on top; it is 32 deep. */
  function Pushed<S>(s: State<S>): u32 { s.condstack * 2 % 0x1_0000_0000 + if s.cond then 1 else 0 }

  /** 30 to 6F: IF b is greater than, less than, equal to, or different from the word in memory. */
  lemma TestsWord<S>(bus: Bus<S>, code: seq<u32>, s: State<S>, a: u32, b: u32)
    requires Here(code, s, a, b) && s.cond && 0x3000_0000 <= a < 0x7000_0000
    ensures var (v, mem) := bus.read(s.mem, Tested(a, s.offset), W32);
            var word := v % 0x1_0000_0000;
            var holds := if a < 0x4000_0000 then b > word else if a < 0x5000_0000 then b < word
                         else if a < 0x6000_0000 then b == word else b != word;
            Continues(bus, code, s, s.(pc := s.pc + 2, mem := mem, condstack := Pushed(s), cond := holds))
  {
    hide Interpret, Decodes, Boundary;
    OneTurn(bus, code, s);
  }

  /** `~mask & value`, bit by bit. */
  lemma {:induction false} MaskedAt(mask: nat, value: nat, p: nat)
    requires p in {1, 2, 4, 8, 16, 32, 64, 128, 256, 512, 1024, 2048, 4096, 8192, 16384, 32768}
    ensures Masked(mask, value) / p % 2 == if mask / p % 2 == 1 then 0 else value / p % 2
  {
    hide Masked;
    MaskedSplit(mask, value);
    if p > 1 {
      MaskedAt(mask / 2, value / 2, p / 2);
      Halved(mask, p);
      Halved(value, p);
      Halved(Masked(mask, value), p);
    }
  }

  lemma MaskedSplit(mask: nat, value: nat)
    ensures Masked(mask, value) % 2 == (if mask % 2 == 1 then 0 else value % 2)
    ensures Masked(mask, value) / 2 == Masked(mask / 2, value / 2)
  {
    if mask != 0 || value != 0 {
      DivisionUnique(
        Masked(mask, value), 2, Masked(mask / 2, value / 2), if value % 2 == 1 && mask % 2 == 0 then 1 else 0);
    }
  }

  /** `x & y`, bit by bit. */
  lemma {:induction false} AndedAt(x: nat, y: nat, p: nat)
    requires p in {1, 2, 4, 8, 16, 32, 64, 128, 256, 512, 1024, 2048, 4096, 8192, 16384, 32768}
    ensures Anded(x, y) / p % 2 == if y / p % 2 == 1 then x / p % 2 else 0
  {
    hide Anded;
    AndedSplit(x, y);
    if p > 1 {
      AndedAt(x / 2, y / 2, p / 2);
      Halved(x, p);
      Halved(y, p);
      Halved(Anded(x, y), p);
    }
  }

  lemma AndedSplit(x: nat, y: nat)
    ensures Anded(x, y) % 2 == (if y % 2 == 1 then x % 2 else 0)
    ensures Anded(x, y) / 2 == Anded(x / 2, y / 2)
  {
    if x != 0 && y != 0 {
      DivisionUnique(Anded(x, y), 2, Anded(x / 2, y / 2), if x % 2 == 1 && y % 2 == 1 then 1 else 0);
    }
  }

  lemma Halved(a: nat, p: nat)
    requires p in {2, 4, 8, 16, 32, 64, 128, 256, 512, 1024, 2048, 4096, 8192, 16384, 32768}
    ensures a / p == a / 2 / (p / 2)
  {
  }

  /** 70 to AF: IF the low half of b compares so with the halfword in memory less the bits of b's high half. */
  lemma TestsHalf<S>(bus: Bus<S>, code: seq<u32>, s: State<S>, a: u32, b: u32)
    requires Here(code, s, a, b) && s.cond && 0x7000_0000 <= a < 0xB000_0000
    ensures var (v, mem) := bus.read(s.mem, Tested(a, s.offset), W16);
            var (low, half) := (b % 0x1_0000, Masked(b / 0x1_0000, v % 0x1_0000));
            var holds := if a < 0x8000_0000 then low > half else if a < 0x9000_0000 then low < half
                         else if a < 0xA000_0000 then low == half else low != half;
            Continues(bus, code, s, s.(pc := s.pc + 2, mem := mem, condstack := Pushed(s), cond := holds))
  {
    hide Interpret, Decodes, Boundary, Masked;
    OneTurn(bus, code, s);
  }

  /** C5 counts its executions, skipped or not, and where not skipped tests the masked count. */
  lemma TestsCount<S>(bus: Bus<S>, code: seq<u32>, s: State<S>, a: u32, b: u32)
    requires Here(code, s, a, b) && a / 0x100_0000 == 0xC5
    ensures var count := (s.c5count + 1) % 0x1_0000_0000;
            Continues(bus, code, s,
                      if !s.cond then s.(pc := s.pc + 2, c5count := count)
                      else s.(pc := s.pc + 2, c5count := count, condstack := Pushed(s),
                              cond := Anded(count, b % 0x1_0000) == b / 0x1_0000))
  {
    hide Interpret, Decodes, Boundary, Anded;
    OneTurn(bus, code, s);
  }

  /** D0 takes the condition back from the stack, whether it is in force or not. */
  lemma EndsIf<S>(bus: Bus<S>, code: seq<u32>, s: State<S>, a: u32, b: u32)
    requires Here(code, s, a, b) && a / 0x100_0000 == 0xD0
    ensures Continues(bus, code, s, s.(pc := s.pc + 2, cond := s.condstack % 2 == 1, condstack := s.condstack / 2))
  {
    hide Interpret, Decodes, Boundary;
    OneTurn(bus, code, s);
  }

  /** With the condition false every other operation is passed over with its data. */
  lemma PassesOver<S>(bus: Bus<S>, code: seq<u32>, s: State<S>, a: u32, b: u32)
    requires Here(code, s, a, b) && !s.cond && a / 0x100_0000 !in {0xC5, 0xD0, 0xD1, 0xD2}
    ensures var data := if a / 0x1000_0000 == 0xE then (b + 7) / 8 * 2 else 0;
            Continues(bus, code, s, s.(pc := s.pc + 2 + data))
  {
    hide Interpret, Decodes, Boundary, Execute;
    OneTurn(bus, code, s);
  }

  // ---------------------------------------------------------------- loops

  /** C0 marks the loop: where it starts, how often it repeats, and the condition to go back to. */
  lemma MarksLoop<S>(bus: Bus<S>, code: seq<u32>, s: State<S>, a: u32, b: u32)
    requires Here(code, s, a, b) && s.cond && a / 0x100_0000 == 0xC0
    ensures Continues(bus, code, s, s.(pc := s.pc + 2, loopstart := s.pc + 2, loopcount := b, loopcond := s.cond,
                                       loopcondstack := s.condstack))
  {
    hide Interpret, Decodes, Boundary;
    OneTurn(bus, code, s);
  }

  /** D1 and D2, whatever the condition: repeat while the count lasts; then restore the condition, or clear all. */
  lemma Repeats<S>(bus: Bus<S>, code: seq<u32>, s: State<S>, a: u32, b: u32)
    requires Here(code, s, a, b) && a / 0x100_0000 in {0xD1, 0xD2}
    ensures Continues(bus, code, s,
                      if s.loopcount > 0 then s.(pc := s.loopstart, loopcount := s.loopcount - 1)
                      else if a / 0x100_0000 == 0xD1 then
                        s.(pc := s.pc + 2, cond := s.loopcond, condstack := s.loopcondstack)
                      else s.(pc := s.pc + 2, offset := 0, datareg := 0, condstack := 0, cond := true))
  {
    hide Interpret, Decodes, Boundary;
    OneTurn(bus, code, s);
  }

  // ---------------------------------------------------------------- the registers

  /** D3, D4, D5, DC: set the offset, add to or set the data register, add to the offset. */
  lemma SetsRegisters<S>(bus: Bus<S>, code: seq<u32>, s: State<S>, a: u32, b: u32)
    requires Here(code, s, a, b) && s.cond
    ensures var t := s.(pc := s.pc + 2);
            && (a / 0x100_0000 == 0xD3 ==> Continues(bus, code, s, t.(offset := b)))
            && (a / 0x100_0000 == 0xD4 ==> Continues(bus, code, s, t.(datareg := (s.datareg + b) % 0x1_0000_0000)))
            && (a / 0x100_0000 == 0xD5 ==> Continues(bus, code, s, t.(datareg := b)))
            && (a / 0x100_0000 == 0xDC ==> Continues(bus, code, s, t.(offset := (s.offset + b) % 0x1_0000_0000)))
  {
    hide Interpret, Decodes, Boundary;
    OneTurn(bus, code, s);
  }

  /** D6, D7, D8 store 32, 16 or 8 bits of the data register at b plus the offset, and move the offset behind them. */
  lemma StoresData<S>(bus: Bus<S>, code: seq<u32>, s: State<S>, a: u32, b: u32)
    requires Here(code, s, a, b) && s.cond && 0xD6 <= a / 0x100_0000 <= 0xD8
    ensures var at := (b + s.offset) % 0x1_0000_0000;
            var (mem, size) := if a / 0x100_0000 == 0xD6 then (bus.write(s.mem, at, W32, s.datareg), 4)
                               else if a / 0x100_0000 == 0xD7 then (bus.write(s.mem, at, W16, s.datareg % 0x1_0000), 2)
                               else (bus.write(s.mem, at, W8, s.datareg % 0x100), 1);
            Continues(bus, code, s, s.(pc := s.pc + 2, mem := mem, offset := (s.offset + size) % 0x1_0000_0000))
  {
    hide Interpret, Decodes, Boundary;
    OneTurn(bus, code, s);
  }

  /** D9, DA, DB load 32, 16 or 8 bits into the data register from b plus the offset. */
  lemma LoadsData<S>(bus: Bus<S>, code: seq<u32>, s: State<S>, a: u32, b: u32)
    requires Here(code, s, a, b) && s.cond && 0xD9 <= a / 0x100_0000 <= 0xDB
    ensures var width := if a / 0x100_0000 == 0xD9 then W32 else if a / 0x100_0000 == 0xDA then W16 else W8;
            var (v, mem) := bus.read(s.mem, (b + s.offset) % 0x1_0000_0000, width);
            var data := if width == W32 then v % 0x1_0000_0000 else if width == W16 then v % 0x1_0000 else v % 0x100;
            Continues(bus, code, s, s.(pc := s.pc + 2, mem := mem, datareg := data))
  {
    hide Interpret, Decodes, Boundary;
    OneTurn(bus, code, s);
  }

  /** C6 stores the offset itself, at b alone. */
  lemma StoresOffset<S>(bus: Bus<S>, code: seq<u32>, s: State<S>, a: u32, b: u32)
    requires Here(code, s, a, b) && s.cond && a / 0x100_0000 == 0xC6
    ensures Continues(bus, code, s, s.(pc := s.pc + 2, mem := bus.write(s.mem, b, W32, s.offset)))
  {
    hide Interpret, Decodes, Boundary;
    OneTurn(bus, code, s);
  }

  /** The operations that do not exist, and C4, end the cheat. */
  lemma Gives<S>(bus: Bus<S>, code: seq<u32>, s: State<S>, a: u32, b: u32)
    requires Here(code, s, a, b) && s.cond
    requires var op := a / 0x100_0000;
             0xC1 <= op <= 0xC4 || 0xC7 <= op <= 0xCF || 0xDD <= op <= 0xDF
    ensures Interpret(bus, code, s) == s.(pc := s.pc + 2)
  {
    hide Interpret, Decodes, Boundary;
    OneTurn(bus, code, s);
  }

  /** Behind its last word a cheat ends. */
  lemma Ends<S>(bus: Bus<S>, code: seq<u32>, s: State<S>)
    requires Decodes(code, 0) && Aligned(code, s) && s.pc == |code|
    ensures Interpret(bus, code, s) == s
  {
  }
}
