/**
 * The key derivation of the DSi AES engine: an exclusive or, a 128-bit addition
 * with carry, and a rotation, all on little-endian byte arrays.
 */
module KeyScrambler {
  import opened Basics
  import opened Ccm

  /** The number that bytes stand for, least significant first. */
  function Number(b: seq<byte>): nat { if b == [] then 0 else b[0] + 256 * Number(b[1..]) }

  function Power2(n: nat): nat { if n == 0 then 1 else 2 * Power2(n - 1) }

  /** 2^128 - 1. */
  function Modulus(): nat {
    PowerPositive(16);
    Power256(16) - 1
  }

  lemma {:induction false} PowerPositive(n: nat)
    ensures Power256(n) > 0
  {
    if n > 0 {
      PowerPositive(n - 1);
    }
  }

  lemma {:induction false} NumberBelow(b: seq<byte>)
    ensures Number(b) < Power256(|b|)
  {
    if b != [] {
      NumberBelow(b[1..]);
    }
  }

  lemma {:induction false} NumberAppend(b: seq<byte>, x: byte)
    ensures Number(b + [x]) == Number(b) + Power256(|b|) * x
  {
    if b == [] {
      assert (b + [x])[1..] == [];
    } else {
      NumberAppend(b[1..], x);
      assert (b + [x])[1..] == b[1..] + [x];
      assert 256 * (Power256(|b| - 1) * x) == Power256(|b|) * x;
    }
  }

  // ---------------------------------------------------------------- rotation

  /** The index c places before i, around the end. */
  function Behind(i: int, c: nat): int { (i - c) % 16 }

  /** Each byte moves c places up, the top ones to the bottom. */
  function RotatedBytes(v: Block, c: nat): Block { seq(16, i requires 0 <= i < 16 => v[Behind(i, c)]) }

  /** Each byte shifted up by k bits, with the top bits of its lower neighbour. */
  function RotatedBits(v: Block, k: nat): Block
    requires k < 8
  {
    seq(16, i requires 0 <= i < 16 => Merged(v[i], v[Behind(i, 1)], k))
  }

  /** `x << k` in a byte. */
  function ShiftedUp(x: byte, k: nat): byte
    requires k < 8
  {
    if k == 0 then x else if k == 1 then x * 2 % 256 else if k == 2 then x * 4 % 256 else if k == 3 then x * 8 % 256
    else if k == 4 then x * 16 % 256 else if k == 5 then x * 32 % 256
    else if k == 6 then x * 64 % 256 else x * 128 % 256
  }

  /** `x >> (8 - k)`. */
  function TopBits(x: byte, k: nat): byte
    requires k < 8
  {
    if k == 0 then 0 else if k == 1 then x / 128 else if k == 2 then x / 64 else if k == 3 then x / 32
    else if k == 4 then x / 16 else if k == 5 then x / 8 else if k == 6 then x / 4 else x / 2
  }

  function Merged(x: byte, below: byte, k: nat): byte
    requires k < 8
  {
    MergedFits(x, below, k);
    ShiftedUp(x, k) + TopBits(below, k)
  }

  lemma Powers()
    ensures Power2(0) == 1 && Power2(1) == 2 && Power2(2) == 4 && Power2(3) == 8 && Power2(4) == 16
    ensures Power2(5) == 32 && Power2(6) == 64 && Power2(7) == 128
  {
    assert Power2(4) == 2 * Power2(3) && Power2(6) == 2 * Power2(5);
  }

  lemma Parts(q: nat, t: nat, p: nat, r: nat)
    requires p >= 1 && r >= 1 && p * r == 256 && t < r && q * r + t < 256
    ensures p * (q * r + t) == 256 * q + p * t && p * t <= 256 - p && q < p
  {
    assert p * (q * r) == q * (p * r);
    assert p * t <= p * (r - 1);
    assert p * (r - 1) == p * r - p;
    if q >= p {
      Grows(p, q, r);
    }
  }

  lemma Grows(p: nat, q: nat, r: nat)
    requires p <= q
    ensures p * r <= q * r
  {
  }

  lemma Remainder(y: nat, q: nat, t: nat)
    requires y == 256 * q + t && t < 256
    ensures y % 256 == t
  {
  }

  /** Multiplying by p moves the top of x, above r = 256 / p, out of the byte. */
  lemma SplitBy(x: byte, p: nat, r: nat)
    requires p >= 1 && r >= 1 && p * r == 256
    ensures p * x == x * p % 256 + 256 * (x / r) && x * p % 256 <= 256 - p && x / r < p
  {
    var (q, t) := (x / r, x % r);
    assert x == q * r + t;
    Parts(q, t, p, r);
    Remainder(x * p, q, p * t);
  }

  lemma ShiftSplits(x: byte, k: nat)
    requires k < 8
    ensures Power2(k) * x == ShiftedUp(x, k) + 256 * TopBits(x, k)
    ensures ShiftedUp(x, k) <= 256 - Power2(k) && TopBits(x, k) < Power2(k)
  {
    Powers();
    hide Power2;
    if k == 1 {
      SplitBy(x, 2, 128);
    } else if k == 2 {
      SplitBy(x, 4, 64);
    } else if k == 3 {
      SplitBy(x, 8, 32);
    } else if k == 4 {
      SplitBy(x, 16, 16);
    } else if k == 5 {
      SplitBy(x, 32, 8);
    } else if k == 6 {
      SplitBy(x, 64, 4);
    } else if k == 7 {
      SplitBy(x, 128, 2);
    }
  }

  lemma MergedFits(x: byte, below: byte, k: nat)
    requires k < 8
    ensures ShiftedUp(x, k) + TopBits(below, k) < 256
  {
    hide ShiftedUp, TopBits, Power2;
    ShiftSplits(x, k);
    ShiftSplits(below, k);
  }

  /** The shift as a loop with the bits that come in at the bottom. */
  function ShiftedIn(v: seq<byte>, below: byte, k: nat): seq<byte>
    requires k < 8
  {
    if v == [] then [] else [Merged(v[0], below, k)] + ShiftedIn(v[1..], v[0], k)
  }

  lemma {:induction false} ShiftedInAt(v: seq<byte>, below: byte, k: nat, i: nat)
    requires k < 8 && i < |v|
    ensures |ShiftedIn(v, below, k)| == |v|
    ensures ShiftedIn(v, below, k)[i] == Merged(v[i], if i == 0 then below else v[i - 1], k)
  {
    hide Merged;
    if i > 0 {
      ShiftedInAt(v[1..], v[0], k, i - 1);
    } else if |v| > 1 {
      ShiftedInAt(v[1..], v[0], k, 0);
    }
  }

  lemma {:induction false} ShiftedInNumber(v: seq<byte>, below: byte, k: nat)
    requires k < 8
    ensures var out := TopBits(if v == [] then below else v[|v| - 1], k);
            Number(ShiftedIn(v, below, k)) + Power256(|v|) * out == Power2(k) * Number(v) + TopBits(below, k)
  {
    hide Power2, ShiftedUp, TopBits;
    if v != [] {
      ShiftSplits(v[0], k);
      ShiftedInNumber(v[1..], v[0], k);
      var (p, rest, out) := (Power2(k), Number(v[1..]), TopBits(v[|v| - 1], k));
      assert ShiftedIn(v, below, k)[1..] == ShiftedIn(v[1..], v[0], k);
      Distributes(p, v[0], rest);
      Grouped(Power256(|v| - 1), out);
    }
  }

  lemma Distributes(p: nat, x: nat, rest: nat)
    ensures p * (x + 256 * rest) == p * x + 256 * (p * rest)
  {
  }

  lemma Grouped(p: nat, x: nat)
    ensures 256 * (p * x) == (256 * p) * x
  {
  }

  lemma MinusOne(p: nat, q: nat)
    ensures p * q - q == q * (p - 1)
  {
  }

  /** A rotation by k bits multiplies by 2^k, but for multiples of 2^128 - 1. */
  lemma BitsRotate(v: Block, k: nat) returns (q: nat)
    requires k < 8
    ensures Power2(k) * Number(v) == Number(RotatedBits(v, k)) + q * Modulus()
  {
    hide Power2, Merged, Power256, TopBits, ShiftedIn, Number;
    assert ShiftedIn(v, v[15], k) == RotatedBits(v, k) by { ShiftedInIsRotated(v, k); }
    ShiftedInNumber(v, v[15], k);
    q := TopBits(v[15], k);
    PowerPositive(16);
    MinusOne(Power256(16), q);
  }

  lemma BehindOne()
    ensures forall i :: 0 <= i < 16 ==> Behind(i, 1) == if i == 0 then 15 else i - 1
  {
  }

  lemma ShiftedInIsRotated(v: Block, k: nat)
    requires k < 8
    ensures ShiftedIn(v, v[15], k) == RotatedBits(v, k)
  {
    BehindOne();
    hide Merged, ShiftedIn, Behind;
    ShiftedInAt(v, v[15], k, 0);
    forall i | 0 <= i < 16
      ensures ShiftedIn(v, v[15], k)[i] == RotatedBits(v, k)[i]
    {
      ShiftedInAt(v, v[15], k, i);
    }
  }

  lemma OneByteRotates(v: Block) returns (q: nat)
    ensures 256 * Number(v) == Number(RotatedBytes(v, 1)) + q * Modulus()
  {
    hide Power256;
    var (low, top) := (v[..15], v[15]);
    assert v == low + [top];
    NumberAppend(low, top);
    assert RotatedBytes(v, 1) == [top] + low;
    assert ([top] + low)[1..] == low;
    PowerPositive(16);
    q := top;
    assert Power256(16) == 256 * Power256(15) by { NextPower(15); }
    assert 256 * (Power256(15) * top) == Power256(16) * top;
    assert Power256(16) * top - top == top * (Power256(16) - 1);
  }

  lemma NextPower(n: nat)
    ensures Power256(n + 1) == 256 * Power256(n)
  {
  }

  /** A rotation by c bytes multiplies by 256^c, but for multiples of 2^128 - 1. */
  lemma {:induction false} BytesRotate(v: Block, c: nat) returns (q: nat)
    requires c <= 16
    ensures Power256(c) * Number(v) == Number(RotatedBytes(v, c)) + q * Modulus()
  {
    hide Power256, Number;
    if c == 0 {
      assert RotatedBytes(v, 0) == v;
      assert Power256(0) == 1 by { PowerZero(); }
      q := 0;
    } else {
      var p := BytesRotate(v, c - 1);
      var w := RotatedBytes(v, c - 1);
      var r := OneByteRotates(w);
      assert RotatedBytes(v, c) == RotatedBytes(w, 1) by { RotateOnce(v, c); }
      NextPower(c - 1);
      q := 256 * p + r;
      assert Power256(c) * Number(v) == 256 * (Power256(c - 1) * Number(v));
      assert 256 * (p * Modulus()) + r * Modulus() == q * Modulus();
    }
  }

  lemma PowerZero()
    ensures Power256(0) == 1
  {
  }

  lemma RotateOnce(v: Block, c: nat)
    requires 0 < c <= 16
    ensures RotatedBytes(v, c) == RotatedBytes(RotatedBytes(v, c - 1), 1)
  {
  }

  function Rotated(v: Block, n: nat): Block { RotatedBits(RotatedBytes(v, n / 8), n % 8) }

  /**
   * `ROL16` is the rotation of a 128-bit number to the left: it multiplies by 2^n
   * modulo 2^128 - 1.
   */
  lemma RotationMultiplies(v: Block, n: nat) returns (q: nat)
    requires n < 128
    ensures Power256(n / 8) * Power2(n % 8) * Number(v) == Number(Rotated(v, n)) + q * Modulus()
    ensures Number(Rotated(v, n)) < Power256(16)
  {
    hide Power2, Power256, Number, RotatedBits, RotatedBytes, Modulus;
    var w := RotatedBytes(v, n / 8);
    var p := BytesRotate(v, n / 8);
    var r := BitsRotate(w, n % 8);
    NumberBelow(Rotated(v, n));
    var (a, b) := (Power256(n / 8), Power2(n % 8));
    q := b * p + r;
    assert a * b * Number(v) == b * (a * Number(v));
    assert b * (Number(w) + p * Modulus()) == b * Number(w) + b * p * Modulus();
    assert b * p * Modulus() + r * Modulus() == q * Modulus();
  }

  // ---------------------------------------------------------------- addition

  /** Addition of two byte strings with a carry, and what is carried out. */
  function Sum(a: seq<byte>, b: seq<byte>, carry: nat): seq<byte>
    requires |a| == |b| && carry < 2
  {
    if a == [] then [] else [(a[0] + b[0] + carry) % 256] + Sum(a[1..], b[1..], (a[0] + b[0] + carry) / 256)
  }

  lemma {:induction false} SumAdds(a: seq<byte>, b: seq<byte>, carry: nat) returns (out: nat)
    requires |a| == |b| && carry < 2
    ensures out < 2 && |Sum(a, b, carry)| == |a|
    ensures Number(Sum(a, b, carry)) + Power256(|a|) * out == Number(a) + Number(b) + carry
  {
    if a == [] {
      out := carry;
    } else {
      var next := (a[0] + b[0] + carry) / 256;
      out := SumAdds(a[1..], b[1..], next);
      assert 256 * (Power256(|a| - 1) * out) == Power256(|a|) * out;
    }
  }

  const KEY_CONST: Block := [
    0xFF, 0xFE, 0xFB, 0x4E, 0x29, 0x59, 0x02, 0x58, 0x2A, 0x68, 0x0F, 0x5F, 0x1A, 0x4F, 0x3E, 0x79]

  /** The normal key of two key halves. */
  function NormalKey(keyX: Block, keyY: Block): Block {
    Rotated(Added(Xor(keyX, keyY)), 42)
  }

  function Added(x: Block): Block {
    SumLength(x, Reversed(KEY_CONST), 0);
    Sum(x, Reversed(KEY_CONST), 0)
  }

  lemma {:induction false} SumLength(a: seq<byte>, b: seq<byte>, carry: nat)
    requires |a| == |b| && carry < 2
    ensures |Sum(a, b, carry)| == |a|
  {
    if a != [] {
      SumLength(a[1..], b[1..], (a[0] + b[0] + carry) / 256);
    }
  }

  /** The key is 2^42 ((X xor Y) + C) with the sum taken modulo 2^128 and the product modulo 2^128 - 1. */
  lemma NormalKeyFormula(keyX: Block, keyY: Block) returns (out: nat, q: nat)
    ensures var sum := Number(Added(Xor(keyX, keyY)));
            && out < 2 && sum < Power256(16)
            && sum + Power256(16) * out == Number(Xor(keyX, keyY)) + Number(Reversed(KEY_CONST))
            && Power256(5) * Power2(2) * sum == Number(NormalKey(keyX, keyY)) + q * Modulus()
  {
    hide Power2, Power256, Number, Sum, Rotated, Modulus, Xor, Reversed;
    var x := Xor(keyX, keyY);
    out := SumAdds(x, Reversed(KEY_CONST), 0);
    NumberBelow(Added(x));
    q := RotationMultiplies(Added(x), 42);
  }

  lemma PowersAre()
    ensures Power256(5) * Power2(2) == 0x400_0000_0000
    ensures Power256(16) == 0x1_0000_0000_0000_0000_0000_0000_0000_0000
  {
    assert Power256(4) == 0x1_0000_0000;
    assert Power256(8) == 0x1_0000_0000_0000_0000;
    assert Power256(12) == 0x1_0000_0000_0000_0000_0000_0000;
  }

  lemma ConstantIs()
    ensures Number(Reversed(KEY_CONST)) == 0xFFFE_FB4E_2959_0258_2A68_0F5F_1A4F_3E79
  {
    hide Number;
    var c := Reversed(KEY_CONST);
    assert c[0..] == c;
    NoBytes(c);
    FourBytes(c, 0);
    FourBytes(c, 4);
    FourBytes(c, 8);
    FourBytes(c, 12);
  }

  lemma NoBytes(c: Block)
    ensures Number(c[16..]) == 0
  {
  }

  lemma FourBytes(c: Block, i: nat)
    requires i + 4 <= 16
    ensures Number(c[i..])
            == c[i] + 0x100 * c[i + 1] + 0x1_0000 * c[i + 2] + 0x100_0000 * c[i + 3]
               + 0x1_0000_0000 * Number(c[i + 4..])
  {
    hide Number;
    Rest(c, i);
    Rest(c, i + 1);
    Rest(c, i + 2);
    Rest(c, i + 3);
  }

  lemma Rest(c: Block, i: nat)
    requires i < 16
    ensures Number(c[i..]) == c[i] + 256 * Number(c[i + 1..])
  {
    assert c[i..][1..] == c[i + 1..];
  }

  /** In numbers: add the constant modulo 2^128, then multiply by 2^42 modulo 2^128 - 1. */
  lemma NormalKeyNumber(keyX: Block, keyY: Block) returns (q: nat)
    ensures var sum := (Number(Xor(keyX, keyY)) + 0xFFFE_FB4E_2959_0258_2A68_0F5F_1A4F_3E79)
                       % 0x1_0000_0000_0000_0000_0000_0000_0000_0000;
            0x400_0000_0000 * sum
            == Number(NormalKey(keyX, keyY)) + q * 0xFFFF_FFFF_FFFF_FFFF_FFFF_FFFF_FFFF_FFFF
    ensures Number(NormalKey(keyX, keyY)) < 0x1_0000_0000_0000_0000_0000_0000_0000_0000
  {
    hide Power2, Power256, Number, Added, NormalKey, Xor, Reversed;
    var out;
    out, q := NormalKeyFormula(keyX, keyY);
    PowersAre();
    ConstantIs();
    NumberBelow(NormalKey(keyX, keyY));
    assert Modulus() == 0xFFFF_FFFF_FFFF_FFFF_FFFF_FFFF_FFFF_FFFF;
  }

  // ---------------------------------------------------------------- the loops

  /** The first loop of `ROL16`: whole bytes. */
  method RotateBytes(val: array<byte>, coarse: nat) returns (tmp: array<byte>)
    requires val.Length == 16
    ensures fresh(tmp) && tmp.Length == 16 && tmp[..] == RotatedBytes(val[..], coarse)
  {
    hide RotatedBytes, Behind;
    ghost var v: Block := val[..];
    tmp := new byte[16];
    CoarseAt(v, coarse);
    BehindInside();
    for i := 0 to 16
      invariant forall k :: 0 <= k < i ==> tmp[k] == RotatedBytes(v, coarse)[k]
    {
      tmp[i] := val[Behind(i, coarse)];
    }
  }

  /** The second loop: the bits left over, from the copy back into the array. */
  method RotateBits(tmp: array<byte>, fine: nat, val: array<byte>)
    requires tmp.Length == val.Length == 16 && tmp != val && fine < 8
    modifies val
    ensures val[..] == RotatedBits(tmp[..], fine)
  {
    hide Merged, Behind;
    ghost var w: Block := tmp[..];
    BehindInside();
    for i := 0 to 16
      invariant tmp[..] == w
      invariant forall k :: 0 <= k < i ==> val[k] == RotatedBits(w, fine)[k]
    {
      val[i] := Merged(tmp[i], tmp[Behind(i, 1)], fine);
    }
    assert val[..] == RotatedBits(w, fine);
  }

  method ROL16(val: array<byte>, n: nat)
    requires val.Length == 16 && n < 128
    modifies val
    ensures val[..] == Rotated(old(val[..]), n)
  {
    hide RotatedBytes, RotatedBits;
    var tmp := RotateBytes(val, n / 8);
    RotateBits(tmp, n % 8, val);
  }

  lemma BehindInside()
    ensures forall i, c: nat :: 0 <= Behind(i, c) < 16
  {
  }

  lemma CoarseAt(v: Block, c: nat)
    ensures forall i {:trigger RotatedBytes(v, c)[i]} :: 0 <= i < 16 ==> RotatedBytes(v, c)[i] == v[Behind(i, c)]
  {
  }

  lemma {:induction false} SumAt(a: seq<byte>, b: seq<byte>, carry: nat, i: nat)
    requires |a| == |b| && carry < 2 && i < |a|
    ensures CarryInto(a, b, carry, i) < 2 && |Sum(a, b, carry)| == |a|
    ensures Sum(a, b, carry)[i] == (a[i] + b[i] + CarryInto(a, b, carry, i)) % 256
    ensures CarryInto(a, b, carry, i + 1) == (a[i] + b[i] + CarryInto(a, b, carry, i)) / 256
  {
    SumLength(a, b, carry);
    if i > 0 {
      SumAt(a[1..], b[1..], (a[0] + b[0] + carry) / 256, i - 1);
    }
  }

  /** The carry into position i. */
  function CarryInto(a: seq<byte>, b: seq<byte>, carry: nat, i: nat): nat
    requires |a| == |b| && carry < 2 && i <= |a|
  {
    if i == 0 then carry else CarryInto(a[1..], b[1..], (a[0] + b[0] + carry) / 256, i - 1)
  }

  method DeriveNormalKey(keyX: array<byte>, keyY: array<byte>, normalkey: array<byte>)
    requires keyX.Length == keyY.Length == normalkey.Length == 16
    modifies normalkey
    ensures normalkey[..] == NormalKey(old(keyX[..]), old(keyY[..]))
  {
    hide XorByte, Rotated, Sum, CarryInto;
    ghost var x: Block, y: Block := keyX[..], keyY[..];
    ghost var (z, c) := (Xor(x, y), Reversed(KEY_CONST));
    var tmp := new byte[16];
    for i := 0 to 16
      invariant forall k :: 0 <= k < i ==> tmp[k] == z[k]
      invariant keyX[..] == x && keyY[..] == y
    {
      tmp[i] := XorByte(keyX[i], keyY[i]);
    }
    var carry := 0;
    CarryStart(z, c);
    for i := 0 to 16
      invariant 0 <= carry < 2 && carry == CarryInto(z, c, 0, i)
      invariant forall k :: 0 <= k < i ==> tmp[k] == Added(z)[k]
      invariant forall k :: i <= k < 16 ==> tmp[k] == z[k]
    {
      SumAt(z, c, 0, i);
      var res := tmp[i] as int + KEY_CONST[15 - i] as int + carry;
      tmp[i] := res % 256;
      carry := res / 256;
    }
    assert tmp[..] == Added(z);
    ROL16(tmp, 42);
    for i := 0 to 16
      invariant tmp[..] == NormalKey(x, y) && forall k :: 0 <= k < i ==> normalkey[k] == NormalKey(x, y)[k]
    {
      normalkey[i] := tmp[i];
    }
    assert normalkey[..] == NormalKey(x, y);
  }

  lemma CarryStart(a: seq<byte>, b: seq<byte>)
    requires |a| == |b|
    ensures CarryInto(a, b, 0, 0) == 0
  {
  }
}
