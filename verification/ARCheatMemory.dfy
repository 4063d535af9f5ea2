/**
 * Whole cheats over a memory of bytes: blocks under a condition, loops, copies,
 * and a few short codes as they are written.
 */
module ARCheatMemory {
  import opened Basics
  import opened ARCheat
  import opened ARCheatEffects

  // ---------------------------------------------------------------- a memory of bytes

  type Memory = u32 -> byte

  /** Byte i of a number, least significant first. */
  function ByteOf(v: nat, i: int): byte {
    if i == 0 then v % 0x100 else if i == 1 then v / 0x100 % 0x100
    else if i == 2 then v / 0x1_0000 % 0x100 else v / 0x100_0000 % 0x100
  }

  function Bytes(width: Width): nat { if width == W8 then 1 else if width == W16 then 2 else 4 }

  /** Accesses are little-endian and aligned downwards, as on the ARM7 bus. */
  function AlignedTo(addr: u32, width: Width): u32 { addr - addr % Bytes(width) }

  function Stored(mem: Memory, addr: u32, width: Width, v: nat): Memory {
    (x: u32) =>
      if AlignedTo(addr, width) <= x < AlignedTo(addr, width) + Bytes(width)
      then ByteOf(v, x - AlignedTo(addr, width)) else mem(x)
  }

  function Fetched(mem: Memory, addr: u32, width: Width): nat {
    var at := AlignedTo(addr, width);
    match width
    case W8 => mem(at)
    case W16 => mem(at) + 0x100 * mem(at + 1)
    case W32 => mem(at) + 0x100 * mem(at + 1) + 0x1_0000 * mem(at + 2) + 0x100_0000 * mem(at + 3)
  }

  function Ram(): Bus<Memory> {
    Bus((mem: Memory, addr: u32, width: Width) => (Fetched(mem, addr, width), mem),
        (mem: Memory, addr: u32, width: Width, v: nat) => Stored(mem, addr, width, v))
  }

  /** How far x lies behind base, around the end of the address space. */
  function Behind(x: u32, base: u32): u32 { (x - base) % 0x1_0000_0000 }

  // ---------------------------------------------------------------- conditions

  /** No operation between from and to looks at the condition before being passed over. */
  predicate Plain(code: seq<u32>, from: nat, to: nat)
    decreases |code| - from
  {
    from == to
    || (from + 2 <= |code| && code[from] / 0x100_0000 !in {0xC5, 0xD0, 0xD1, 0xD2}
        && Plain(code, from + Length(code, from), to))
  }

  /** Under a false condition such a block does nothing. */
  lemma {:induction false} SkipsBlock<S>(bus: Bus<S>, code: seq<u32>, s: State<S>, to: nat)
    requires Decodes(code, 0) && Aligned(code, s) && !s.cond && Plain(code, s.pc, to)
    ensures Continues(bus, code, s, s.(pc := to))
    decreases |code| - s.pc
  {
    hide Interpret, Decodes, Boundary;
    if s.pc != to {
      PassesOver(bus, code, s, code[s.pc], code[s.pc + 1]);
      SkipsBlock(bus, code, s.(pc := s.pc + Length(code, s.pc)), to);
    }
  }

  /** Does the word IF hold for the word that was read? */
  predicate Holds(a: u32, b: u32, word: u32) {
    if a < 0x4000_0000 then b > word else if a < 0x5000_0000 then b < word
    else if a < 0x6000_0000 then b == word else b != word
  }

  /**
   * An IF with its block and its ENDIF.  If the comparison fails, the run goes on
   * behind the ENDIF with nothing but the read done; if it holds, the block is
   * run, and behind the ENDIF the condition and the stack are those from before.
   */
  lemma IfBlock<S>(bus: Bus<S>, code: seq<u32>, s: State<S>, a: u32, b: u32, to: nat)
    requires Here(code, s, a, b) && s.cond && 0x3000_0000 <= a < 0x7000_0000 && s.condstack < 0x8000_0000
    requires Plain(code, s.pc + 2, to) && to + 2 <= |code| && code[to] / 0x100_0000 == 0xD0
    ensures var (v, mem) := bus.read(s.mem, Tested(a, s.offset), W32);
            if Holds(a, b, v % 0x1_0000_0000) then
              Continues(bus, code, s, s.(pc := s.pc + 2, mem := mem, condstack := 2 * s.condstack + 1))
            else Continues(bus, code, s, s.(pc := to + 2, mem := mem))
    ensures forall u: State<S> :: Aligned(code, u) && u.pc == to && u.condstack == 2 * s.condstack + 1 ==>
              Continues(bus, code, u, u.(pc := to + 2, cond := true, condstack := s.condstack))
  {
    hide Interpret, Decodes, Boundary, Plain;
    TestsWord(bus, code, s, a, b);
    var (v, mem) := bus.read(s.mem, Tested(a, s.offset), W32);
    var t := s.(pc := s.pc + 2, mem := mem, condstack := Pushed(s), cond := Holds(a, b, v % 0x1_0000_0000));
    if !t.cond {
      SkipsBlock(bus, code, t, to);
      EndsIf(bus, code, t.(pc := to), code[to], code[to + 1]);
    }
    forall u: State<S> | Aligned(code, u) && u.pc == to && u.condstack == 2 * s.condstack + 1
      ensures Continues(bus, code, u, u.(pc := to + 2, cond := true, condstack := s.condstack))
    {
      EndsIf(bus, code, u, code[to], code[to + 1]);
    }
  }

  // ---------------------------------------------------------------- loops

  /** From `from` to `to`, in the loop that starts there, the run has the effect f. */
  ghost predicate HasEffect<S(!new)>(
    bus: Bus<S>, code: seq<u32>, from: nat, to: nat, f: State<S> -> State<S>)
    requires Decodes(code, 0)
  {
    forall u: State<S> {:trigger f(u)} :: Aligned(code, u) && u.pc == from && u.loopstart == from && u.cond ==>
      && Continues(bus, code, u, f(u)) && f(u).pc == to && f(u).cond
      && f(u).loopstart == from && f(u).loopcount == u.loopcount
  }

  /** n rounds of a loop, each but the first one from the loop's start with one repetition less to come. */
  function Rounds<S>(f: State<S> -> State<S>, u: State<S>, n: nat): State<S> {
    if n == 0 then u
    else if n == 1 then f(u)
    else
      var t := Rounds(f, u, n - 1);
      f(t.(pc := t.loopstart, loopcount := if t.loopcount > 0 then t.loopcount - 1 else 0))
  }

  lemma {:induction false} RoundsContinue<S(!new)>(
    bus: Bus<S>, code: seq<u32>, u: State<S>, to: nat, f: State<S> -> State<S>, n: nat)
    requires Decodes(code, 0) && Aligned(code, u) && u.loopstart == u.pc && u.cond && 1 <= n <= u.loopcount + 1
    requires HasEffect(bus, code, u.pc, to, f)
    requires to + 2 <= |code| && code[to] / 0x100_0000 in {0xD1, 0xD2}
    ensures var t := Rounds(f, u, n);
            Continues(bus, code, u, t) && t.pc == to && t.loopstart == u.pc && t.cond
            && t.loopcount == u.loopcount - (n - 1)
  {
    hide Interpret, Decodes, Boundary;
    if n > 1 {
      RoundsContinue(bus, code, u, to, f, n - 1);
      Repeats(bus, code, Rounds(f, u, n - 1), code[to], code[to + 1]);
    }
  }

  /** FOR 0..b with its NEXT runs its body b + 1 times. */
  lemma LoopRuns<S(!new)>(
    bus: Bus<S>, code: seq<u32>, s: State<S>, a: u32, b: u32, to: nat, f: State<S> -> State<S>)
    requires Here(code, s, a, b) && s.cond && a / 0x100_0000 == 0xC0
    requires HasEffect(bus, code, s.pc + 2, to, f)
    requires to + 2 <= |code| && code[to] / 0x100_0000 == 0xD1
    ensures var u := s.(pc := s.pc + 2, loopstart := s.pc + 2, loopcount := b, loopcond := true,
                        loopcondstack := s.condstack);
            var t := Rounds(f, u, b + 1);
            && t.loopcount == 0
            && Continues(bus, code, s, t.(pc := to + 2, cond := t.loopcond, condstack := t.loopcondstack))
  {
    hide Interpret, Decodes, Boundary, HasEffect, Rounds;
    MarksLoop(bus, code, s, a, b);
    var u := s.(pc := s.pc + 2, loopstart := s.pc + 2, loopcount := b, loopcond := true, loopcondstack := s.condstack);
    RoundsContinue(bus, code, u, to, f, b + 1);
    Repeats(bus, code, Rounds(f, u, b + 1), code[to], code[to + 1]);
  }

  // ---------------------------------------------------------------- copying

  /** r bytes behind the first n ones. */
  lemma SpanBehind(dst: u32, n: nat, r: nat, x: u32)
    requires n + r <= 0x1_0000_0000
    ensures var (i, j) := (Behind(x, dst), Behind(x, Wrap(dst + n)));
            (j < r <==> n <= i < n + r) && (j < r ==> i == n + j)
  {
    var (i, at) := (Behind(x, dst), Wrap(dst + n));
    assert i == x - dst || i == x - dst + 0x1_0000_0000;
    assert at == dst + n || at == dst + n - 0x1_0000_0000;
    if i >= n {
      assert Behind(x, at) == i - n;
    } else {
      assert Behind(x, at) == i - n + 0x1_0000_0000;
    }
  }

  /** A word of a range of words, as the addresses that it takes up. */
  lemma WordSpan(x: u32, base: u32, k: nat)
    requires base % 4 == 0 && 4 * k + 4 <= 0x1_0000_0000
    ensures var at := Wrap(base + 4 * k);
            && at % 4 == 0 && (at <= x < at + 4 <==> 4 * k <= Behind(x, base) < 4 * k + 4)
            && (at <= x < at + 4 ==> x - at == Behind(x, base) - 4 * k)
  {
    hide Wrap, Behind;
    SpanBehind(base, 4 * k, 4, x);
    AlignedWord(base, k);
    NextFour(x, Wrap(base + 4 * k));
  }

  lemma AlignedWord(base: u32, k: nat)
    requires base % 4 == 0 && 4 * k <= 0x1_0000_0000
    ensures Wrap(base + 4 * k) % 4 == 0
  {
    var at := Wrap(base + 4 * k);
    assert at == base + 4 * k || at == base + 4 * k - 0x1_0000_0000;
  }

  lemma NextFour(x: u32, at: u32)
    requires at % 4 == 0
    ensures Behind(x, at) < 4 <==> at <= x < at + 4
    ensures at <= x < at + 4 ==> Behind(x, at) == x - at
  {
    assert at + 4 <= 0x1_0000_0000;
    assert Behind(x, at) == if x >= at then x - at else x - at + 0x1_0000_0000;
  }

  /** Byte i of the data that starts at a place in the code. */
  function DataByte(words: seq<u32>, i: nat): byte
    requires i < 4 * |words|
  {
    ByteOf(words[i / 4], i % 4)
  }

  lemma {:induction false} WordsArrive(mem: Memory, dst: u32, words: seq<u32>, n: nat, x: u32)
    requires n <= |words| && 4 * n <= 0x1_0000_0000
    ensures var i := Behind(x, dst - dst % 4);
            WordsIn(Ram(), mem, dst, words, n)(x) == if i < 4 * n then DataByte(words, i) else mem(x)
  {
    hide ByteOf, Behind, Wrap;
    if n > 0 {
      WordsArrive(mem, dst, words, n - 1, x);
      WordSpan(x, dst - dst % 4, n - 1);
      WordStored(WordsIn(Ram(), mem, dst, words, n - 1), dst, n - 1, words[n - 1], x);
    }
  }

  lemma WordStored(mem: Memory, dst: u32, k: nat, v: u32, x: u32)
    requires 4 * k + 4 <= 0x1_0000_0000
    ensures var i := Behind(x, dst - dst % 4);
            Ram().write(mem, Wrap(dst + 4 * k), W32, v)(x)
            == if 4 * k <= i < 4 * k + 4 then ByteOf(v, i - 4 * k) else mem(x)
  {
    hide ByteOf, Behind, Wrap;
    WordSpan(x, dst - dst % 4, k);
    AlignDown(dst, k);
  }

  lemma AlignDown(dst: u32, k: nat)
    requires 4 * k + 4 <= 0x1_0000_0000
    ensures AlignedTo(Wrap(dst + 4 * k), W32) == Wrap(dst - dst % 4 + 4 * k)
  {
    var at := (dst + 4 * k) % 0x1_0000_0000;
    assert at == dst + 4 * k || at == dst + 4 * k - 0x1_0000_0000;
    assert at % 4 == dst % 4;
  }

  lemma ByteStored(mem: Memory, dst: u32, k: nat, v: byte, x: u32)
    requires k < 0x1_0000_0000
    ensures Ram().write(mem, Wrap(dst + k), W8, v)(x) == if Behind(x, dst) == k then v else mem(x)
  {
    var at := Wrap(dst + k);
    assert at == dst + k || at == dst + k - 0x1_0000_0000;
    assert Bytes(W8) == 1 && AlignedTo(at, W8) == at;
    assert ByteOf(v, 0) == v;
    assert Behind(x, dst) == if x >= dst then x - dst else x - dst + 0x1_0000_0000;
    assert Behind(x, dst) == k <==> x == at;
    assert Stored(mem, at, W8, v)(x) == if x == at then v else mem(x);
  }

  lemma {:induction false} BytesArrive(mem: Memory, dst: u32, word: u32, n: nat, x: u32)
    requires n <= 4
    ensures BytesIn(Ram(), mem, dst, word, n)(x)
            == if Behind(x, dst) < n then ByteOf(word, Behind(x, dst)) else mem(x)
  {
    hide Behind, Wrap;
    if n > 0 {
      BytesArrive(mem, dst, word, n - 1, x);
      assert ByteAt(word, n - 1) == ByteOf(word, n - 1);
      ByteStored(BytesIn(Ram(), mem, dst, word, n - 1), dst, n - 1, ByteAt(word, n - 1), x);
    }
    assert Behind(x, dst) >= 0;
  }

  lemma CopyInArrives(mem: Memory, dst: u32, words: seq<u32>, b: u32, x: u32)
    requires b <= 4 * |words|
    ensures var (i, j, n) := (Behind(x, dst - dst % 4), Behind(x, Wrap(dst + b / 4 * 4)), b / 4 * 4);
            CopyIn(Ram(), mem, dst, words, b)(x)
            == if j < b % 4 then DataByte(words, n + j) else if i < n then DataByte(words, i) else mem(x)
  {
    hide WordsIn, BytesIn, Behind, Wrap, ByteOf;
    var n := b / 4;
    WordsArrive(mem, dst, words, n, x);
    if b % 4 > 0 {
      BytesArrive(WordsIn(Ram(), mem, dst, words, n), Wrap(dst + 4 * n), words[n], b % 4, x);
    }
    assert Behind(x, Wrap(dst + b / 4 * 4)) >= 0;
  }

  /** With an aligned destination the words and the bytes behind them are one range. */
  lemma OneRange(dst: u32, b: u32, x: u32)
    requires dst % 4 == 0
    ensures var (i, j, n) := (Behind(x, dst), Behind(x, Wrap(dst + b / 4 * 4)), b / 4 * 4);
            (j < b % 4 <==> n <= i < b) && (j < b % 4 ==> i == n + j)
  {
    hide Behind, Wrap;
    SpanBehind(dst, b / 4 * 4, b % 4, x);
  }

  /** The words of data behind a pair of the code. */
  function DataOf(code: seq<u32>, pc: nat, b: u32): (data: seq<u32>)
    requires pc + 2 + (b + 7) / 8 * 2 <= |code|
    ensures b <= 4 * |data|
  {
    code[pc + 2..pc + 2 + (b + 7) / 8 * 2]
  }

  /** Byte i of the data has arrived at dst plus i, and nothing else has changed. */
  ghost predicate Arrived(before: Memory, after: Memory, dst: u32, data: seq<u32>, b: u32)
    requires b <= 4 * |data|
  {
    forall x: u32 :: after(x) == if Behind(x, dst) < b then DataByte(data, Behind(x, dst)) else before(x)
  }

  /** The words have arrived where the bus aligns them to, the bytes behind them where they should. */
  ghost predicate ArrivedAligned(before: Memory, after: Memory, dst: u32, data: seq<u32>, b: u32)
    requires b <= 4 * |data|
  {
    forall x: u32 :: after(x) == DisplacedByte(before, dst, data, b, x)
  }

  function DisplacedByte(before: Memory, dst: u32, data: seq<u32>, b: u32, x: u32): byte
    requires b <= 4 * |data|
  {
    var (i, j, n) := (Behind(x, dst - dst % 4), Behind(x, Wrap(dst + b / 4 * 4)), b / 4 * 4);
    if j < b % 4 then DataByte(data, n + j) else if i < n then DataByte(data, i) else before(x)
  }

  lemma CopyInEffect(mem: Memory, dst: u32, data: seq<u32>, b: u32)
    requires b <= 4 * |data|
    ensures ArrivedAligned(mem, CopyIn(Ram(), mem, dst, data, b), dst, data, b)
    ensures dst % 4 == 0 ==> Arrived(mem, CopyIn(Ram(), mem, dst, data, b), dst, data, b)
  {
    hide CopyIn, Behind, Wrap, DataByte;
    var after := CopyIn(Ram(), mem, dst, data, b);
    forall x: u32
      ensures after(x) == DisplacedByte(mem, dst, data, b, x)
      ensures dst % 4 == 0 ==> after(x) == if Behind(x, dst) < b then DataByte(data, Behind(x, dst)) else mem(x)
    {
      CopyInArrives(mem, dst, data, b, x);
      if dst % 4 == 0 {
        OneRange(dst, b, x);
      }
    }
  }

  /**
   * E0 to EF: byte i of the b bytes of data behind the pair lands at the
   * effective address plus i, nothing else changes, and the run goes on behind
   * the data.  So for an aligned address; to any other one the whole words go
   * where the bus aligns them to, and only the bytes left over go where it says.
   */
  lemma CopiesIn(code: seq<u32>, s: State<Memory>, a: u32, b: u32) returns (mem: Memory)
    requires Here(code, s, a, b) && s.cond && a / 0x1000_0000 == 0xE
    ensures var next := s.pc + 2 + (b + 7) / 8 * 2;
            next <= |code| && Continues(Ram(), code, s, s.(pc := next, mem := mem))
    ensures var (dst, data) := (Effective(a, s.offset), DataOf(code, s.pc, b));
            && ArrivedAligned(s.mem, mem, dst, data, b)
            && (dst % 4 == 0 ==> Arrived(s.mem, mem, dst, data, b))
  {
    hide Interpret, Boundary, Execute, CopyIn, Behind, Wrap, DataByte, Decodes, Arrived, ArrivedAligned;
    OneTurn(Ram(), code, s);
    var (dst, data) := (Effective(a, s.offset), DataOf(code, s.pc, b));
    mem := CopyIn(Ram(), s.mem, dst, data, b);
    CopyTurn(code, s, a, b);
    CopyInEffect(s.mem, dst, data, b);
  }

  lemma CopyTurn(code: seq<u32>, s: State<Memory>, a: u32, b: u32)
    requires Decodes(code, s.pc) && Here(code, s, a, b) && s.cond && a / 0x1000_0000 == 0xE
    ensures var next := s.pc + 2 + (b + 7) / 8 * 2;
            && next <= |code|
            && Turn(Ram(), code, s)
               == Go(s.(pc := next,
                        mem := CopyIn(Ram(), s.mem, Effective(a, s.offset), DataOf(code, s.pc, b), b)))
  {
    hide Execute, CopyIn, Boundary;
  }

  // ---------------------------------------------------------------- copying within memory

  /** The copy of a range of words does not run into its own source. */
  predicate Apart(src: u32, dst: u32, b: nat) { dst == src || Behind(dst, src) >= b }

  lemma WordLoaded(mem: Memory, src: u32, k: nat, i: nat)
    requires src % 4 == 0 && 4 * k + 4 <= 0x1_0000_0000 && i < 4
    ensures ByteOf(Low(W32, Fetched(mem, Wrap(src + 4 * k), W32)), i) == mem(Wrap(src + 4 * k + i))
  {
    hide ByteOf, Wrap;
    var at := Wrap(src + 4 * k);
    WrapAligned(src, k, i);
    FourBytes(mem(at), mem(at + 1), mem(at + 2), mem(at + 3));
  }

  lemma WrapAligned(src: u32, k: nat, i: nat)
    requires src % 4 == 0 && 4 * k + 4 <= 0x1_0000_0000 && i < 4
    ensures var at := Wrap(src + 4 * k);
            at % 4 == 0 && AlignedTo(at, W32) == at && Wrap(src + 4 * k + i) == at + i
  {
    var at := Wrap(src + 4 * k);
    assert at == src + 4 * k || at == src + 4 * k - 0x1_0000_0000;
    assert at % 4 == 0;
    assert at + i < 0x1_0000_0000;
  }

  lemma FourBytes(a: byte, b: byte, c: byte, d: byte)
    ensures var v := a + 0x100 * b + 0x1_0000 * c + 0x100_0000 * d;
            v < 0x1_0000_0000 && ByteOf(v, 0) == a && ByteOf(v, 1) == b && ByteOf(v, 2) == c && ByteOf(v, 3) == d
  {
    var v := a + 0x100 * b + 0x1_0000 * c + 0x100_0000 * d;
    assert v / 0x100 == b + 0x100 * c + 0x1_0000 * d;
    assert v / 0x1_0000 == c + 0x100 * d;
  }

  /** What is read for byte k has not been written for an earlier one. */
  lemma NotYet(src: u32, dst: u32, b: nat, k: nat)
    requires Apart(src, dst, b) && k < b <= 0x1_0000_0000
    ensures Behind(Wrap(src + k), dst) >= k
  {
    var (y, d) := (Wrap(src + k), Behind(dst, src));
    assert y == if src + k < 0x1_0000_0000 then src + k else src + k - 0x1_0000_0000;
    assert d == if dst >= src then dst - src else dst - src + 0x1_0000_0000;
    assert Behind(y, dst) == if y >= dst then y - dst else y - dst + 0x1_0000_0000;
  }

  /** A unit brings four bytes over, as the units before it left them. */
  lemma UnitStored(mem: Memory, src: u32, dst: u32, k: nat, x: u32)
    requires src % 4 == dst % 4 == 0 && 4 * k + 4 <= 0x1_0000_0000
    ensures var (i, t) := (Behind(x, dst), CopyUnits(Ram(), mem, src, dst, W32, 4, k));
            CopyUnits(Ram(), mem, src, dst, W32, 4, k + 1)(x)
            == if 4 * k <= i < 4 * k + 4 then t(Wrap(src + i)) else t(x)
  {
    hide Behind, Wrap, ByteOf, Fetched, Low;
    var (i, t) := (Behind(x, dst), CopyUnits(Ram(), mem, src, dst, W32, 4, k));
    var v := Low(W32, Fetched(t, Wrap(src + 4 * k), W32));
    LowFits(Fetched(t, Wrap(src + 4 * k), W32));
    WordStored(t, dst, k, v, x);
    if 4 * k <= i < 4 * k + 4 {
      WordLoaded(t, src, k, i - 4 * k);
    }
  }

  lemma {:induction false} WordsCopied(mem: Memory, src: u32, dst: u32, n: nat, x: u32)
    requires src % 4 == dst % 4 == 0 && 4 * n <= 0x1_0000_0000 && Apart(src, dst, 4 * n)
    ensures var i := Behind(x, dst);
            CopyUnits(Ram(), mem, src, dst, W32, 4, n)(x) == if i < 4 * n then mem(Wrap(src + i)) else mem(x)
  {
    hide Behind, Wrap, Fetched, Low, Stored;
    var i := Behind(x, dst);
    assert i >= 0;
    if n > 0 {
      UnitStored(mem, src, dst, n - 1, x);
      WordsCopied(mem, src, dst, n - 1, x);
      if 4 * (n - 1) <= i < 4 * n {
        WordsCopied(mem, src, dst, n - 1, Wrap(src + i));
        NotYet(src, dst, 4 * n, i);
      }
    }
  }

  lemma LowFits(v: nat)
    ensures Low(W32, v) < 0x1_0000_0000
  {
  }

  lemma ByteLoaded(mem: Memory, at: u32)
    ensures Low(W8, Fetched(mem, at, W8)) == mem(at)
  {
  }

  lemma ByteUnit(mem: Memory, src: u32, dst: u32, n: nat)
    requires n > 0
    ensures var t := CopyUnits(Ram(), mem, src, dst, W8, 1, n - 1);
            CopyUnits(Ram(), mem, src, dst, W8, 1, n)
            == Ram().write(t, Wrap(dst + (n - 1)), W8, t(Wrap(src + (n - 1))))
  {
    hide Wrap, Fetched, Low, Stored;
    var t := CopyUnits(Ram(), mem, src, dst, W8, 1, n - 1);
    ByteLoaded(t, Wrap(src + (n - 1)));
  }

  lemma {:induction false} BytesCopied(mem: Memory, src: u32, dst: u32, n: nat, x: u32)
    requires n < 4 && Apart(src, dst, n)
    ensures var i := Behind(x, dst);
            CopyUnits(Ram(), mem, src, dst, W8, 1, n)(x) == if i < n then mem(Wrap(src + i)) else mem(x)
  {
    hide Behind, Wrap, Stored, Fetched, CopyUnits;
    if n == 0 {
      NothingCopied(mem, src, dst);
      assert Behind(x, dst) >= 0;
    } else {
      var t := CopyUnits(Ram(), mem, src, dst, W8, 1, n - 1);
      ByteUnit(mem, src, dst, n);
      BytesCopied(mem, src, dst, n - 1, x);
      ByteStored(t, dst, n - 1, t(Wrap(src + (n - 1))), x);
      BytesCopied(mem, src, dst, n - 1, Wrap(src + (n - 1)));
      NotYet(src, dst, n, n - 1);
    }
  }

  lemma NothingCopied(mem: Memory, src: u32, dst: u32)
    ensures CopyUnits(Ram(), mem, src, dst, W8, 1, 0) == mem
  {
  }

  lemma LaterApart(src: u32, dst: u32, b: u32)
    requires src % 4 == dst % 4 == 0 && Apart(src, dst, b)
    ensures Apart(Wrap(src + b / 4 * 4), Wrap(dst + b / 4 * 4), b % 4) && Apart(src, dst, b / 4 * 4)
  {
    hide Wrap, Behind;
    SameDistance(src, dst, b / 4 * 4);
  }

  lemma SameDistance(src: u32, dst: u32, n: nat)
    requires n <= 0x1_0000_0000
    ensures Behind(Wrap(dst + n), Wrap(src + n)) == Behind(dst, src)
  {
    var s: int := Wrap(src + n);
    var d: int := Wrap(dst + n);
    var (p, q) := ((src + n) / 0x1_0000_0000, (dst + n) / 0x1_0000_0000);
    assert d - s == dst - src + (p - q) * 0x1_0000_0000;
    assert 0 <= p <= 2 && 0 <= q <= 2;
  }

  /** Between aligned places that are apart, byte i of the source becomes byte i of the destination. */
  lemma CopyWithinArrives(mem: Memory, src: u32, dst: u32, b: u32, x: u32)
    requires src % 4 == dst % 4 == 0 && Apart(src, dst, b)
    ensures var i := Behind(x, dst);
            CopyWithin(Ram(), mem, src, dst, b)(x) == if i < b then mem(Wrap(src + i)) else mem(x)
  {
    hide Behind, Wrap, CopyUnits, Apart;
    var (n, i) := (b / 4 * 4, Behind(x, dst));
    LaterApart(src, dst, b);
    OneRange(dst, b, x);
    var t := CopyUnits(Ram(), mem, src, dst, W32, 4, b / 4);
    WordsCopied(mem, src, dst, b / 4, x);
    BytesCopied(t, Wrap(src + n), Wrap(dst + n), b % 4, x);
    var j := Behind(x, Wrap(dst + n));
    if j < b % 4 {
      WrapTwice(src + n, j);
      NotYet(src, dst, b, i);
      WordsCopied(mem, src, dst, b / 4, Wrap(src + i));
    }
  }

  /** The first byte is copied first and stays. */
  lemma {:induction false} FirstStays(mem: Memory, src: u32, dst: u32, n: nat)
    requires src % 4 == dst % 4 == 0 && 1 <= n && 4 * n <= 0x1_0000_0000
    ensures CopyUnits(Ram(), mem, src, dst, W32, 4, n)(dst) == mem(src)
  {
    hide Behind, Wrap, Fetched, Low, Stored;
    Nowhere(dst);
    Nowhere(src);
    UnitStored(mem, src, dst, n - 1, dst);
    if n > 1 {
      FirstStays(mem, src, dst, n - 1);
    }
  }

  lemma Nowhere(a: u32)
    ensures Behind(a, a) == 0 && Wrap(a) == a
  {
  }

  /** The bytes left over only go where they should. */
  lemma {:induction false} BytesOutside(mem: Memory, src: u32, dst: u32, n: nat, x: u32)
    requires n <= Behind(x, dst)
    ensures CopyUnits(Ram(), mem, src, dst, W8, 1, n)(x) == mem(x)
  {
    hide Wrap, Stored, Fetched, CopyUnits;
    if n == 0 {
      NothingCopied(mem, src, dst);
    } else {
      var t := CopyUnits(Ram(), mem, src, dst, W8, 1, n - 1);
      ByteUnit(mem, src, dst, n);
      BytesOutside(mem, src, dst, n - 1, x);
      ByteStored(t, dst, n - 1, t(Wrap(src + (n - 1))), x);
    }
  }

  /** The first byte of unit k is what the copy of the first k units left at its source. */
  lemma {:induction false} UnitReads(mem: Memory, src: u32, dst: u32, n: nat, k: nat)
    requires src % 4 == dst % 4 == 0 && k < n && 4 * n <= 0x1_0000_0000
    ensures CopyUnits(Ram(), mem, src, dst, W32, 4, n)(Wrap(dst + 4 * k))
            == CopyUnits(Ram(), mem, src, dst, W32, 4, k)(Wrap(src + 4 * k))
  {
    hide Behind, Wrap, Fetched, Low, Stored;
    Ahead(dst, 4 * k);
    UnitStored(mem, src, dst, n - 1, Wrap(dst + 4 * k));
    if k < n - 1 {
      UnitReads(mem, src, dst, n - 1, k);
    }
  }

  lemma Ahead(a: u32, n: nat)
    requires n < 0x1_0000_0000
    ensures Behind(Wrap(a + n), a) == n && (n > 0 ==> Wrap(a + n) != a)
  {
  }

  lemma Reaches(src: u32, dst: u32)
    ensures Wrap(src + Behind(dst, src)) == dst
    ensures src % 4 == dst % 4 == 0 ==> Behind(dst, src) % 4 == 0
    ensures Behind(dst, src) == 0 <==> dst == src
  {
  }

  /** If they overlap, the byte of the source that lies on the destination has become the first byte. */
  lemma OverlapRepeats(mem: Memory, src: u32, dst: u32, b: u32)
    requires src % 4 == dst % 4 == 0 && !Apart(src, dst, b)
    ensures CopyWithin(Ram(), mem, src, dst, b)(Wrap(dst + Behind(dst, src))) == mem(src)
  {
    hide Wrap, CopyUnits, Behind;
    var (n, d) := (b / 4, Behind(dst, src));
    Reaches(src, dst);
    var (k, at) := (d / 4, Wrap(dst + d));
    Ahead(dst, d);
    var t := CopyUnits(Ram(), mem, src, dst, W32, 4, n);
    var (s1, d1) := (Wrap(src + 4 * n), Wrap(dst + 4 * n));
    FirstStays(mem, src, dst, k);
    if k < n {
      UnitReads(mem, src, dst, n, k);
      OneRange(dst, b, at);
      BytesOutside(t, s1, d1, b % 4, at);
    } else {
      assert k == n && at == d1 && s1 == dst;
      LaterBytes(t, s1, d1, b % 4);
    }
  }

  /** The first byte left over is read first and stays. */
  lemma {:induction false} LaterBytes(mem: Memory, src: u32, dst: u32, n: nat)
    requires 1 <= n < 4
    ensures CopyUnits(Ram(), mem, src, dst, W8, 1, n)(dst) == mem(src)
  {
    hide Wrap, Stored, Fetched, CopyUnits, Behind;
    var t := CopyUnits(Ram(), mem, src, dst, W8, 1, n - 1);
    ByteUnit(mem, src, dst, n);
    Nowhere(dst);
    Nowhere(src);
    ByteStored(t, dst, n - 1, t(Wrap(src + (n - 1))), dst);
    if n == 1 {
      NothingCopied(mem, src, dst);
    } else {
      LaterBytes(mem, src, dst, n - 1);
    }
  }

  /** Byte i of the source has become byte i of the destination, and nothing else has changed. */
  ghost predicate IsCopy(before: Memory, after: Memory, src: u32, dst: u32, b: u32) {
    forall x: u32 :: after(x) == if Behind(x, dst) < b then before(Wrap(src + Behind(x, dst))) else before(x)
  }

  /**
   * The copy of b bytes between aligned places is a copy of what was there
   * before, for every memory, exactly if the destination does not start inside
   * the source behind its first byte.
   */
  lemma CopyWithinExactly(src: u32, dst: u32, b: u32)
    requires src % 4 == dst % 4 == 0
    ensures (forall mem: Memory :: IsCopy(mem, CopyWithin(Ram(), mem, src, dst, b), src, dst, b))
            <==> Apart(src, dst, b)
  {
    hide Wrap, CopyWithin, Behind;
    if Apart(src, dst, b) {
      forall mem: Memory
        ensures IsCopy(mem, CopyWithin(Ram(), mem, src, dst, b), src, dst, b)
      {
        forall x: u32
          ensures CopyWithin(Ram(), mem, src, dst, b)(x)
                  == if Behind(x, dst) < b then mem(Wrap(src + Behind(x, dst))) else mem(x)
        {
          CopyWithinArrives(mem, src, dst, b, x);
        }
      }
    } else {
      var mem: Memory := (y: u32) => if y == src then 1 else 0;
      Reaches(src, dst);
      var d := Behind(dst, src);
      Ahead(dst, d);
      OverlapRepeats(mem, src, dst, b);
      assert mem(Wrap(src + d)) == 0 && mem(src) == 1;
      var at := Wrap(dst + d);
      assert CopyWithin(Ram(), mem, src, dst, b)(at)
             != if Behind(at, dst) < b then mem(Wrap(src + Behind(at, dst))) else mem(at);
      assert !IsCopy(mem, CopyWithin(Ram(), mem, src, dst, b), src, dst, b);
    }
  }

  /** F0 to FF copy b bytes from the offset to the address alone. */
  lemma CopiesWithin(code: seq<u32>, s: State<Memory>, a: u32, b: u32) returns (mem: Memory)
    requires Here(code, s, a, b) && s.cond && a / 0x1000_0000 == 0xF
    ensures Continues(Ram(), code, s, s.(pc := s.pc + 2, mem := mem))
    ensures s.offset % 4 == 0 && a % 4 == 0 && Apart(s.offset, a % 0x1000_0000, b) ==>
              IsCopy(s.mem, mem, s.offset, a % 0x1000_0000, b)
  {
    hide Interpret, Boundary, Decodes, Behind, CopyWithin, Wrap, Special, CopyIn, DataWords, IfWord, IfHalf;
    OneTurn(Ram(), code, s);
    mem := CopyWithin(Ram(), s.mem, s.offset, a % 0x1000_0000, b);
    if s.offset % 4 == 0 && a % 4 == 0 && Apart(s.offset, a % 0x1000_0000, b) {
      forall x: u32
        ensures var i := Behind(x, a % 0x1000_0000);
                mem(x) == if i < b then s.mem(Wrap(s.offset + i)) else s.mem(x)
      {
        CopyWithinArrives(s.mem, s.offset, a % 0x1000_0000, b, x);
      }
    }
  }
}
