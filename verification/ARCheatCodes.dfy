/** A few cheats as they are written, from the first word to the last. */
module ARCheatCodes {
  import opened Basics
  import opened ARCheat
  import opened ARCheatEffects
  import opened ARCheatMemory

  /** A code of pairs without data in between. */
  predicate Pairs(code: seq<u32>) {
    |code| % 2 == 0 && forall k :: 0 <= k < |code| && k % 2 == 0 ==> code[k] / 0x1000_0000 != 0xE
  }

  lemma {:induction false} PairsDecode(code: seq<u32>, pc: nat)
    requires Pairs(code) && pc % 2 == 0 && pc <= |code|
    ensures Decodes(code, pc)
    decreases |code| - pc
  {
    if pc < |code| {
      assert Length(code, pc) == 2;
      PairsDecode(code, pc + 2);
    }
  }

  lemma {:induction false} PairsBound(code: seq<u32>, pc: nat)
    requires Pairs(code) && pc % 2 == 0 && pc <= |code|
    ensures Boundary(code, 0, pc)
  {
    if pc > 0 {
      PairsBound(code, pc - 2);
      assert Length(code, pc - 2) == 2;
      BoundaryNext(code, 0, pc - 2);
    }
  }

  lemma AtPair<S>(code: seq<u32>, s: State<S>)
    requires Pairs(code) && s.pc % 2 == 0 && s.loopstart % 2 == 0 && s.loopstart <= s.pc <= |code|
    ensures Decodes(code, 0) && Aligned(code, s)
  {
    hide Decodes, Boundary, Pairs;
    PairsDecode(code, 0);
    PairsBound(code, s.pc);
    PairsBound(code, s.loopstart);
  }

  lemma OffsetThenWrite(mem: Memory, offset: u32, a: u32, b: u32)
    requires a < 0x1000_0000
    ensures var code := [0xD300_0000, offset, a, b];
            Decodes(code, 0)
            && Interpret(Ram(), code, InitialState(mem)).mem == Stored(mem, (a + offset) % 0x1_0000_0000, W32, b)
  {
    hide Interpret, Decodes, Boundary, Stored;
    var code := [0xD300_0000, offset, a, b];
    var s := InitialState(mem);
    AtPair(code, s);
    SetsRegisters(Ram(), code, s, 0xD300_0000, offset);
    var t := s.(pc := 2, offset := offset);
    Writes(Ram(), code, t, a, b);
    Ends(Ram(), code, t.(pc := 4, mem := Stored(mem, (a + offset) % 0x1_0000_0000, W32, b)));
  }

  /** Set the offset, then write: the value arrives at the address plus the offset, and nowhere else. */
  lemma WriteAtOffset(mem: Memory, offset: u32, a: u32, b: u32)
    requires a < 0x1000_0000 && (a + offset) % 4 == 0
    ensures var code := [0xD300_0000, offset, a, b];
            Decodes(code, 0)
            && var after := Interpret(Ram(), code, InitialState(mem)).mem;
            forall x: u32 ::
              after(x) == var at := (a + offset) % 0x1_0000_0000;
                          if at <= x < at + 4 then ByteOf(b, x - at) else mem(x)
  {
    hide Interpret, Decodes, ByteOf;
    OffsetThenWrite(mem, offset, a, b);
    var at := (a + offset) % 0x1_0000_0000;
    assert at % 4 == 0;
    assert AlignedTo(at, W32) == at && Bytes(W32) == 4;
  }

  function PointerCode(p: u32, displacement: u32, b: u32): seq<u32>
    requires 0 < p < 0x1000_0000
  {
    [0x6000_0000 + p, 0, 0xB000_0000 + p, 0, displacement, b, 0xD200_0000, 0]
  }

  lemma PointerTested(mem: Memory, p: u32, displacement: u32, b: u32)
    requires 0 < p < 0x1000_0000 && displacement < 0x1000_0000
    ensures var (code, s) := (PointerCode(p, displacement, b), InitialState(mem));
            && Pairs(code) && Decodes(code, 0)
            && Continues(Ram(), code, s, s.(pc := 2, condstack := 1, cond := Fetched(mem, p, W32) != 0))
  {
    hide Interpret, Decodes, Boundary, Fetched;
    var (code, s) := (PointerCode(p, displacement, b), InitialState(mem));
    AtPair(code, s);
    FetchedFits(mem, p);
    TestsWord(Ram(), code, s, 0x6000_0000 + p, 0);
  }

  lemma PointerFollowed(mem: Memory, p: u32, displacement: u32, b: u32, t: State<Memory>) returns (u: State<Memory>)
    requires 0 < p < 0x1000_0000 && displacement < 0x1000_0000
    requires Decodes(PointerCode(p, displacement, b), 0) && Aligned(PointerCode(p, displacement, b), t)
    requires t == InitialState(mem).(pc := 2, condstack := 1, cond := true)
    ensures var at := (displacement + Fetched(mem, p, W32)) % 0x1_0000_0000;
            Continues(Ram(), PointerCode(p, displacement, b), t, u) && u.pc == 6 && u.loopcount == 0 && u.loopstart == 0
            && u.mem == Stored(mem, at, W32, b)
  {
    hide Interpret, Decodes, Boundary, Fetched, Stored;
    var code := PointerCode(p, displacement, b);
    FetchedFits(mem, p);
    LoadsOffset(Ram(), code, t, 0xB000_0000 + p, 0);
    var v := t.(pc := 4, offset := Fetched(mem, p, W32));
    Writes(Ram(), code, v, displacement, b);
    u := v.(pc := 6, mem := Stored(mem, Effective(displacement, v.offset), W32, b));
  }

  lemma PointerSkipped(mem: Memory, p: u32, displacement: u32, b: u32, t: State<Memory>)
    requires 0 < p < 0x1000_0000 && displacement < 0x1000_0000
    requires Decodes(PointerCode(p, displacement, b), 0) && Aligned(PointerCode(p, displacement, b), t)
    requires t.pc == 2 && !t.cond
    ensures Continues(Ram(), PointerCode(p, displacement, b), t, t.(pc := 6))
  {
    hide Interpret, Decodes, Boundary;
    PassesOver(Ram(), PointerCode(p, displacement, b), t, 0xB000_0000 + p, 0);
    PassesOver(Ram(), PointerCode(p, displacement, b), t.(pc := 4), displacement, b);
  }

  /**
   * The usual pointer cheat: unless the word at p is zero, write at what it
   * points to plus a displacement.
   */
  lemma WriteThroughPointer(mem: Memory, p: u32, displacement: u32, b: u32)
    requires 0 < p < 0x1000_0000 && displacement < 0x1000_0000
    ensures var (code, pointer) := (PointerCode(p, displacement, b), Fetched(mem, p, W32));
            Decodes(code, 0)
            && Interpret(Ram(), code, InitialState(mem)).mem
               == if pointer == 0 then mem else Stored(mem, (displacement + pointer) % 0x1_0000_0000, W32, b)
  {
    hide Interpret, Decodes, Boundary, Stored, Fetched;
    var code := PointerCode(p, displacement, b);
    var t := InitialState(mem).(pc := 2, condstack := 1, cond := Fetched(mem, p, W32) != 0);
    PointerTested(mem, p, displacement, b);
    var u := t.(pc := 6);
    if t.cond {
      u := PointerFollowed(mem, p, displacement, b, t);
    } else {
      PointerSkipped(mem, p, displacement, b, t);
    }
    Repeats(Ram(), code, u, 0xD200_0000, 0);
    Ends(Ram(), code, u.(pc := 8, offset := 0, datareg := 0, condstack := 0, cond := true));
  }

  lemma FetchedFits(mem: Memory, p: u32)
    ensures Fetched(mem, p, W32) < 0x1_0000_0000
  {
  }

  // ---------------------------------------------------------------- a loop

  function FillCode(v: u32, start: u32, b: u32): seq<u32> {
    [0xD500_0000, v, 0xC000_0000, b, 0xD800_0000, start, 0xD100_0000, 0]
  }

  /** Store the low byte of the data register and step on. */
  function FillStep(start: u32): State<Memory> -> State<Memory> {
    (u: State<Memory>) =>
      u.(pc := 6, mem := Stored(u.mem, (start + u.offset) % 0x1_0000_0000, W8, u.datareg % 0x100),
         offset := (u.offset + 1) % 0x1_0000_0000)
  }

  lemma FillHasEffect(v: u32, start: u32, b: u32)
    ensures Decodes(FillCode(v, start, b), 0) && HasEffect(Ram(), FillCode(v, start, b), 4, 6, FillStep(start))
  {
    hide Interpret, Decodes, Boundary, Stored;
    var (code, f) := (FillCode(v, start, b), FillStep(start));
    AtPair(code, InitialState((x: u32) => 0));
    forall u: State<Memory> | Aligned(code, u) && u.pc == 4 && u.loopstart == 4 && u.cond
      ensures Continues(Ram(), code, u, f(u)) && f(u).pc == 6 && f(u).cond
              && f(u).loopstart == 4 && f(u).loopcount == u.loopcount
    {
      StoresData(Ram(), code, u, 0xD800_0000, start);
    }
  }

  lemma FillNext(u: State<Memory>, start: u32, n: nat)
    ensures var (t, r) := (Rounds(FillStep(start), u, n), Rounds(FillStep(start), u, n + 1));
            && r.mem == Stored(t.mem, (start + t.offset) % 0x1_0000_0000, W8, t.datareg % 0x100)
            && r.offset == (t.offset + 1) % 0x1_0000_0000 && r.datareg == t.datareg
            && r.loopcond == t.loopcond && r.loopcondstack == t.loopcondstack
  {
    hide Stored;
  }

  /** After n rounds the n bytes from the start on hold the value. */
  lemma {:induction false} FillRounds(u: State<Memory>, start: u32, n: nat, x: u32)
    requires u.offset == 0 && n <= 0x1_0000_0000
    ensures var t := Rounds(FillStep(start), u, n);
            && t.offset == n % 0x1_0000_0000 && t.datareg == u.datareg
            && t.loopcond == u.loopcond && t.loopcondstack == u.loopcondstack
            && t.mem(x) == if Behind(x, start) < n then u.datareg % 0x100 else u.mem(x)
  {
    hide Behind, Stored, Rounds, FillStep;
    assert Behind(x, start) >= 0;
    if n > 0 {
      FillRounds(u, start, n - 1, x);
      FillNext(u, start, n - 1);
      ByteStored(Rounds(FillStep(start), u, n - 1).mem, start, n - 1, u.datareg % 0x100, x);
    } else {
      NoRound(u, start);
    }
  }

  lemma NoRound(u: State<Memory>, start: u32)
    ensures Rounds(FillStep(start), u, 0) == u
  {
  }

  /** A loop of b repetitions over a byte store fills b + 1 bytes, for every b. */
  lemma Fills(mem: Memory, v: u32, start: u32, b: u32)
    ensures var code := FillCode(v, start, b);
            Decodes(code, 0)
            && var after := Interpret(Ram(), code, InitialState(mem)).mem;
            forall x: u32 :: after(x) == if (x - start) % 0x1_0000_0000 <= b then v % 0x100 else mem(x)
  {
    hide Interpret, Decodes, Boundary, HasEffect, Rounds;
    var (code, s) := (FillCode(v, start, b), InitialState(mem));
    AtPair(code, s);
    SetsRegisters(Ram(), code, s, 0xD500_0000, v);
    var t := s.(pc := 2, datareg := v);
    FillHasEffect(v, start, b);
    LoopRuns(Ram(), code, t, 0xC000_0000, b, 6, FillStep(start));
    var u := t.(pc := 4, loopstart := 4, loopcount := b, loopcond := true, loopcondstack := 0);
    var r := Rounds(FillStep(start), u, b + 1);
    Ends(Ram(), code, r.(pc := 8, cond := r.loopcond, condstack := r.loopcondstack));
    forall x: u32
      ensures r.mem(x) == if (x - start) % 0x1_0000_0000 <= b then v % 0x100 else mem(x)
    {
      FillRounds(u, start, b + 1, x);
    }
  }
}
