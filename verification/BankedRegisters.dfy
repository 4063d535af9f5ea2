/**
 * The ARM register file with its banked registers kept by swapping: `r` always
 * holds what the current mode sees, and the array of a banked mode holds that
 * mode's registers, or the user ones while the mode is current.
 */
module BankedRegisters {
  import opened Basics

  type Reg = i: int | 0 <= i < 16

  /** The last element of each array of a banked mode is its saved status register. */
  datatype State = State(
    r: seq<u32>, fiq: seq<u32>, irq: seq<u32>, svc: seq<u32>, abt: seq<u32>, und: seq<u32>, cpsr: u32)
  {
    predicate Valid() { |r| == 16 && |fiq| == 8 && |irq| == |svc| == |abt| == |und| == 3 }
  }

  // ---------------------------------------------------------------- modes and the abstract file

  function ModeOf(cpsr: u32): int { cpsr % 32 }

  datatype Bank = User | FIQ | IRQ | SVC | ABT | UND

  function BankOfMode(mode: int): Bank {
    if mode == 0x11 then FIQ else if mode == 0x12 then IRQ else if mode == 0x13 then SVC
    else if mode == 0x17 then ABT else if mode == 0x1B then UND else User
  }

  /** The bank in which a mode has its register i. */
  function BankOf(mode: int, i: Reg): Bank {
    var b := BankOfMode(mode);
    if (b.FIQ? && 8 <= i < 15) || (!b.FIQ? && 13 <= i < 15) then b else User
  }

  function Stored(s: State, b: Bank): seq<u32>
    requires s.Valid() && b != User
  {
    match b
    case FIQ => s.fiq
    case IRQ => s.irq
    case SVC => s.svc
    case ABT => s.abt
    case UND => s.und
  }

  function IndexOf(b: Bank, i: Reg): int { if b.FIQ? then i - 8 else i - 13 }

  /** Bank b has a register i of its own. */
  predicate Has(b: Bank, i: Reg) { b.User? || (b.FIQ? && 8 <= i < 15) || (!b.FIQ? && 13 <= i < 15) }

  /** The abstract register file: register i of bank b, whichever mode is current. */
  function Logical(s: State, mode: int, b: Bank, i: Reg): u32
    requires s.Valid() && Has(b, i)
  {
    var current := BankOf(mode, i);
    if b == current then s.r[i]
    else if b.User? then Stored(s, current)[IndexOf(current, i)]
    else Stored(s, b)[IndexOf(b, i)]
  }

  /** The saved status register of a banked mode. */
  function Saved(s: State, b: Bank): u32
    requires s.Valid() && b != User
  {
    if b.FIQ? then s.fiq[7] else Stored(s, b)[2]
  }

  // ---------------------------------------------------------------- swapping

  /** Registers 13 and 14 change places with the first two of an array. */
  function SwapTwo(s: State, a: seq<u32>): (seq<u32>, seq<u32>)
    requires s.Valid() && |a| == 3
  {
    (s.r[13 := a[0]][14 := a[1]], [s.r[13], s.r[14], a[2]])
  }

  function Swap(s: State, mode: int): (t: State)
    requires s.Valid()
    ensures t.Valid() && t.cpsr == s.cpsr
  {
    match BankOfMode(mode)
    case User => s
    case FIQ => s.(r := s.r[..8] + s.fiq[..7] + s.r[15..], fiq := s.r[8..15] + s.fiq[7..])
    case IRQ => var (r, a) := SwapTwo(s, s.irq); s.(r := r, irq := a)
    case SVC => var (r, a) := SwapTwo(s, s.svc); s.(r := r, svc := a)
    case ABT => var (r, a) := SwapTwo(s, s.abt); s.(r := r, abt := a)
    case UND => var (r, a) := SwapTwo(s, s.und); s.(r := r, und := a)
  }

  function UpdateMode(s: State, oldMode: int, newMode: int): (t: State)
    requires s.Valid()
    ensures t.Valid() && t.cpsr == s.cpsr
  {
    if oldMode == newMode then s else Swap(Swap(s, oldMode), newMode)
  }

  const USR := 0x10

  lemma SwapOut(s: State, mode: int, b: Bank, i: Reg)
    requires s.Valid() && Has(b, i)
    ensures Logical(Swap(s, mode), USR, b, i) == Logical(s, mode, b, i)
  {
    if BankOfMode(mode).FIQ? {
      SwappedFIQ(s, i);
    }
  }

  lemma SwapIn(s: State, mode: int, b: Bank, i: Reg)
    requires s.Valid() && Has(b, i)
    ensures Logical(Swap(s, mode), mode, b, i) == Logical(s, USR, b, i)
  {
    if BankOfMode(mode).FIQ? {
      SwappedFIQ(s, i);
    }
  }

  lemma SwappedFIQ(s: State, i: Reg)
    requires s.Valid()
    ensures var t := Swap(s, 0x11);
            && t.r[i] == (if 8 <= i < 15 then s.fiq[i - 8] else s.r[i])
            && (8 <= i < 15 ==> t.fiq[i - 8] == s.r[i]) && t.fiq[7] == s.fiq[7]
  {
  }

  /** `UpdateMode` changes no register of any mode, and no saved status register. */
  lemma UpdateModeKeeps(s: State, oldMode: int, newMode: int, b: Bank, i: Reg)
    requires s.Valid() && Has(b, i)
    ensures Logical(UpdateMode(s, oldMode, newMode), newMode, b, i) == Logical(s, oldMode, b, i)
    ensures b != User ==> Saved(UpdateMode(s, oldMode, newMode), b) == Saved(s, b)
  {
    hide Logical;
    if oldMode != newMode {
      SwapOut(s, oldMode, b, i);
      SwapIn(Swap(s, oldMode), newMode, b, i);
    }
  }

  /** A sequence of mode changes, each from the mode that the last one entered. */
  function UpdateModes(s: State, mode: int, modes: seq<int>): (t: State)
    requires s.Valid()
    ensures t.Valid() && t.cpsr == s.cpsr
    decreases |modes|
  {
    if modes == [] then s else UpdateModes(UpdateMode(s, mode, modes[0]), modes[0], modes[1..])
  }

  /** Every sequence of mode changes preserves the abstract register file. */
  lemma {:induction false} UpdateModesKeep(s: State, mode: int, modes: seq<int>, b: Bank, i: Reg)
    requires s.Valid() && Has(b, i)
    ensures var last := if modes == [] then mode else modes[|modes| - 1];
            Logical(UpdateModes(s, mode, modes), last, b, i) == Logical(s, mode, b, i)
    decreases |modes|
  {
    hide Logical, UpdateMode;
    if modes != [] {
      UpdateModeKeeps(s, mode, modes[0], b, i);
      UpdateModesKeep(UpdateMode(s, mode, modes[0]), modes[0], modes[1..], b, i);
    }
  }

  // ---------------------------------------------------------------- interrupt entry and return

  predicate ThumbOf(cpsr: u32) { cpsr / 32 % 2 == 1 }

  predicate IrqMasked(cpsr: u32) { cpsr / 128 % 2 == 1 }

  function WithThumb(cpsr: u32, thumb: bool): u32 {
    if ThumbOf(cpsr) == thumb then cpsr else if thumb then cpsr + 32 else cpsr - 32
  }

  /** The program counter two instructions ahead, and the state bit that the target address selects. */
  function JumpTo(s: State, addr: u32): (t: State)
    requires s.Valid()
    ensures t.Valid()
  {
    if addr % 2 == 1 then s.(r := s.r[15 := Add(addr, 1)], cpsr := WithThumb(s.cpsr, true))
    else s.(r := s.r[15 := Add(addr - addr % 4, 4)], cpsr := WithThumb(s.cpsr, false))
  }

  function TriggerIRQ(s: State, exceptionBase: u32): (t: State)
    requires s.Valid()
    ensures t.Valid()
  {
    if IrqMasked(s.cpsr) then s
    else
      var entered := s.(cpsr := s.cpsr / 256 * 256 + 0xD2);
      var switched := UpdateMode(entered, ModeOf(s.cpsr), ModeOf(entered.cpsr));
      var lr := Add(switched.r[15], if ThumbOf(s.cpsr) then 2 else 0);
      JumpTo(switched.(irq := switched.irq[2 := s.cpsr], r := switched.r[14 := lr]), Add(exceptionBase, 0x18))
  }

  /** The status register that returning from a mode brings back; a mode without one keeps its own. */
  function SavedFor(s: State): u32
    requires s.Valid()
  {
    var mode := ModeOf(s.cpsr);
    if mode == 0x11 then s.fiq[7] else if mode == 0x12 then s.irq[2] else if mode == 0x13 then s.svc[2]
    else if 0x14 <= mode <= 0x17 then s.abt[2] else if 0x18 <= mode <= 0x1B then s.und[2] else s.cpsr
  }

  predicate Bit4(cpsr: u32) { cpsr / 16 % 2 == 1 }

  function WithBit4(cpsr: u32): u32 { if Bit4(cpsr) then cpsr else cpsr + 16 }

  function RestoreCPSR(s: State): (t: State)
    requires s.Valid()
    ensures t.Valid()
  {
    var restored := WithBit4(SavedFor(s));
    UpdateMode(s.(cpsr := restored), ModeOf(s.cpsr), ModeOf(restored))
  }

  function WithBit0(addr: u32, bit: bool): u32 { addr - addr % 2 + if bit then 1 else 0 }

  /** A jump that returns from an exception: the restored state bit decides, not the address. */
  function JumpRestoring(s: State, addr: u32): (t: State)
    requires s.Valid()
    ensures t.Valid()
  {
    var restored := RestoreCPSR(s);
    JumpTo(restored, WithBit0(addr, ThumbOf(restored.cpsr)))
  }

  /** Where a jump leaves the program counter. */
  function Target(addr: u32): u32 { if addr % 2 == 1 then Add(addr, 1) else Add(addr - addr % 4, 4) }

  lemma CpsrBits(cpsr: u32)
    ensures ModeOf(cpsr / 256 * 256 + 0xD2) == 0x12 && !ThumbOf(cpsr / 256 * 256 + 0xD2)
    ensures Bit4(cpsr) ==> ModeOf(cpsr) >= 16
  {
    var h := cpsr / 256;
    assert h * 256 + 0xD2 == 32 * (8 * h + 6) + 0x12;
  }

  /** Entry: the old status is saved, and no register changes but the IRQ link register and the program counter. */
  lemma EntryKeeps(s: State, exceptionBase: u32, b: Bank, i: Reg)
    requires s.Valid() && !IrqMasked(s.cpsr) && exceptionBase % 4 == 0 && Has(b, i) && i != 15
    ensures var t := TriggerIRQ(s, exceptionBase);
            && ModeOf(t.cpsr) == 0x12 && t.irq[2] == s.cpsr
            && (b != IRQ || i != 14 ==> Logical(t, 0x12, b, i) == Logical(s, ModeOf(s.cpsr), b, i))
  {
    hide UpdateMode, Wrap, Add, ThumbOf, IrqMasked;
    CpsrBits(s.cpsr);
    var entered := s.(cpsr := s.cpsr / 256 * 256 + 0xD2);
    UpdateModeKeeps(entered, ModeOf(s.cpsr), 0x12, b, i);
    assert Add(exceptionBase, 0x18) % 2 == 0 by { EvenVector(exceptionBase); }
    assert Logical(entered, ModeOf(s.cpsr), b, i) == Logical(s, ModeOf(s.cpsr), b, i);
  }

  /** The link register that entry writes, from the interrupted program counter. */
  function Link(s: State): u32
    requires s.Valid()
  {
    Add(s.r[15], if ThumbOf(s.cpsr) then 2 else 0)
  }

  lemma EntryLinks(s: State, exceptionBase: u32)
    requires s.Valid() && !IrqMasked(s.cpsr)
    ensures TriggerIRQ(s, exceptionBase).r[14] == Link(s)
  {
    hide UpdateMode, Wrap, Add, ThumbOf, IrqMasked;
    var entered := s.(cpsr := s.cpsr / 256 * 256 + 0xD2);
    UpdateModeKeeps(entered, ModeOf(s.cpsr), ModeOf(entered.cpsr), User, 15);
  }

  lemma EvenVector(exceptionBase: u32)
    requires exceptionBase % 4 == 0
    ensures Add(exceptionBase, 0x18) % 2 == 0
  {
    var x: int := exceptionBase + 0x18;
    assert Add(exceptionBase, 0x18) == if x < 0x1_0000_0000 then x else x - 0x1_0000_0000;
  }

  /**
   * Return: whatever the handler did, if it left the saved status and the
   * registers of the other modes as entry left them, returning restores every
   * register of a non-IRQ mode but the program counter, and restores the status
   * register if and only if its bit 4 was set, as in every mode with 32-bit
   * addresses.
   */
  lemma InterruptRoundTrip(s: State, exceptionBase: u32, handled: State)
    requires s.Valid() && handled.Valid() && !IrqMasked(s.cpsr) && exceptionBase % 4 == 0
    requires ModeOf(s.cpsr) != 0x12 && ModeOf(handled.cpsr) == 0x12 && handled.irq[2] == s.cpsr
    requires forall b, i: Reg :: b != IRQ && Has(b, i) && i != 15 ==>
               Logical(handled, 0x12, b, i) == Logical(TriggerIRQ(s, exceptionBase), 0x12, b, i)
    ensures var t := RestoreCPSR(handled);
            && (t.cpsr == s.cpsr <==> Bit4(s.cpsr))
            && (forall b, i: Reg :: b != IRQ && Has(b, i) && i != 15 ==>
                  Logical(t, ModeOf(t.cpsr), b, i) == Logical(s, ModeOf(s.cpsr), b, i))
            && (Bit4(s.cpsr) ==> forall i: Reg :: i < 15 ==> t.r[i] == s.r[i])
  {
    hide UpdateMode, TriggerIRQ, Logical, IrqMasked;
    var t := RestoreCPSR(handled);
    var restored := WithBit4(s.cpsr);
    var switched := handled.(cpsr := restored);
    forall b, i: Reg | b != IRQ && Has(b, i) && i != 15
      ensures Logical(t, ModeOf(t.cpsr), b, i) == Logical(s, ModeOf(s.cpsr), b, i)
    {
      UpdateModeKeeps(switched, 0x12, ModeOf(restored), b, i);
      SameRegisters(switched, handled, b, i);
      EntryKeeps(s, exceptionBase, b, i);
    }
    if Bit4(s.cpsr) {
      forall i: Reg | i < 15
        ensures t.r[i] == s.r[i]
      {
        SeenByMode(t, ModeOf(s.cpsr), i);
        SeenByMode(s, ModeOf(s.cpsr), i);
      }
    }
  }

  lemma SameRegisters(s: State, t: State, b: Bank, i: Reg)
    requires s.Valid() && t == s.(cpsr := t.cpsr) && Has(b, i)
    ensures t.Valid() && Logical(s, 0x12, b, i) == Logical(t, 0x12, b, i)
  {
  }

  /** What a mode sees in `r` is the abstract register of its bank. */
  lemma SeenByMode(s: State, mode: int, i: Reg)
    requires s.Valid()
    ensures Has(BankOf(mode, i), i) && Logical(s, mode, BankOf(mode, i), i) == s.r[i]
    ensures mode != 0x12 ==> BankOf(mode, i) != IRQ
  {
  }
}
