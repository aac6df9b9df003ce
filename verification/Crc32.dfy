/** CRC-32 of clause 3.2.9 of IEEE 802.3 in its reflected form (src/protocol.cpp:26-38): the
    register loop, its algebra over GF(2), and burst detection. A 32-bit register is its list of
    bits, least significant first. */
module Crc32 {
  import opened Types

  type Bits = seq<bool>
  type Word = x: Bits | |x| == 32 witness seq(32, _ => false)

  function BitsOf(v: nat, n: nat): (b: Bits)
    ensures |b| == n
  {
    if n == 0 then [] else [v % 2 == 1] + BitsOf(v / 2, n - 1)
  }

  function NumberOf(b: Bits): nat {
    if b == [] then 0 else (if b[0] then 1 else 0) + 2 * NumberOf(b[1..])
  }

  function Zeros(n: nat): (b: Bits)
    ensures |b| == n && forall i :: 0 <= i < n ==> !b[i]
  {
    seq(n, _ => false)
  }

  /** Addition over GF(2). */
  function Xor(x: Bits, y: Bits): (z: Bits)
    requires |x| == |y|
    ensures |z| == |x| && forall i :: 0 <= i < |z| ==> z[i] == (x[i] != y[i])
  {
    seq(|x|, i requires 0 <= i < |x| => x[i] != y[i])
  }

  function And(x: Word, y: Word): (z: Word)
    ensures forall i :: 0 <= i < 32 ==> z[i] == (x[i] && y[i])
  {
    seq(32, i requires 0 <= i < 32 => x[i] && y[i])
  }

  function FromBytes(b0: Bits, b1: Bits, b2: Bits, b3: Bits): (w: Word)
    requires |b0| == |b1| == |b2| == |b3| == 8
    ensures w[31] == b3[7]
  {
    b0 + b1 + b2 + b3
  }

  /** 0xEDB88320; its top bit is set because the generator has degree 32. */
  function Polynomial(): (p: Word)
    ensures p[31]
  {
    TopBitOfED();
    hide BitsOf;
    FromBytes(BitsOf(0x20, 8), BitsOf(0x83, 8), BitsOf(0xB8, 8), BitsOf(0xED, 8))
  }

  lemma TopBitOfED()
    ensures BitsOf(0xED, 8)[7]
  {
    assert BitsOf(0xED, 8)[7] == BitsOf(0x76, 7)[6] == BitsOf(0x3B, 6)[5] == BitsOf(0x1D, 5)[4];
    assert BitsOf(0x1D, 5)[4] == BitsOf(0xE, 4)[3] == BitsOf(7, 3)[2] == BitsOf(3, 2)[1] == BitsOf(1, 1)[0];
  }

  function Ones(): (w: Word)
    ensures forall i :: 0 <= i < 32 ==> w[i]
  {
    seq(32, _ => true)
  }

  function ShiftRight(x: Word): (z: Word)
    ensures !z[31] && forall i :: 0 <= i < 31 ==> z[i] == x[i + 1]
  {
    x[1..] + [false]
  }

  /** One division step: shift out a bit and subtract the polynomial when it was set. */
  function Step(x: Word): (z: Word)
    ensures z[31] == x[0]
    ensures forall i :: 0 <= i < 31 ==> z[i] == (x[i + 1] != (x[0] && Polynomial()[i]))
  {
    if x[0] then Xor(ShiftRight(x), Polynomial()) else ShiftRight(x)
  }

  function Steps(x: Word, n: nat): Word {
    if n == 0 then x else Step(Steps(x, n - 1))
  }

  /** A byte zero-extended to a register. */
  function Widen(b: u8): Word {
    BitsOf(b, 8) + Zeros(24)
  }

  /** The register after absorbing `data`, starting from `s`. */
  function Register(s: Word, data: Bytes): Word {
    if data == [] then s
    else Steps(Xor(Register(s, data[..|data| - 1]), Widen(data[|data| - 1])), 8)
  }

  function WordValue(x: Word): u32 {
    WordRange(x);
    NumberOf(x)
  }

  function Crc(data: Bytes): u32 {
    WordValue(Xor(Register(Ones(), data), Ones()))
  }

  method ComputeCrc32(data: Bytes) returns (c: u32)
    ensures c == Crc(data)
  {
    hide Step, Widen, Polynomial, ShiftRight, Xor, And;
    var crc: Word := Ones();
    for i := 0 to |data|
      invariant crc == Register(Ones(), data[..i])
    {
      assert data[..i + 1][..i] == data[..i];
      crc := Xor(crc, Widen(data[i]));
      ghost var start := crc;
      for k := 0 to 8
        invariant crc == Steps(start, k)
      {
        var mask: Word := seq(32, _ => crc[0]);
        MaskSelects(crc, mask);
        crc := Xor(ShiftRight(crc), And(Polynomial(), mask));
      }
    }
    assert data[..|data|] == data;
    c := WordValue(Xor(crc, Ones()));
  }

  /** Spreading the low bit over a mask selects the polynomial exactly when the bit is set. */
  lemma MaskSelects(x: Word, mask: Word)
    requires forall i :: 0 <= i < 32 ==> mask[i] == x[0]
    ensures Xor(ShiftRight(x), And(Polynomial(), mask)) == Step(x)
  {
  }

  // ------------------------------------------------------------ numbers

  function Pow2(n: nat): (p: nat)
    ensures p >= 1
  {
    if n == 0 then 1 else 2 * Pow2(n - 1)
  }

  lemma {:induction false} NumberBound(b: Bits)
    ensures NumberOf(b) < Pow2(|b|)
  {
    if b != [] { NumberBound(b[1..]); }
  }

  lemma {:induction false} Pow2Sum(m: nat, n: nat)
    ensures Pow2(m + n) == Pow2(m) * Pow2(n)
  {
    if m > 0 { Pow2Sum(m - 1, n); }
  }

  lemma WordRange(x: Word)
    ensures NumberOf(x) < TWO_32
  {
    NumberBound(x);
    assert Pow2(4) == 16;
    Pow2Sum(4, 4);
    Pow2Sum(8, 8);
    Pow2Sum(16, 16);
  }

  lemma {:induction false} NumberInjective(a: Bits, b: Bits)
    requires |a| == |b| && NumberOf(a) == NumberOf(b)
    ensures a == b
  {
    if a != [] {
      NumberInjective(a[1..], b[1..]);
      assert a == [a[0]] + a[1..] && b == [b[0]] + b[1..];
    }
  }

  lemma {:induction false} BitsInjective(v: nat, w: nat, n: nat)
    requires v < Pow2(n) && w < Pow2(n) && BitsOf(v, n) == BitsOf(w, n)
    ensures v == w
  {
    if n > 0 {
      assert BitsOf(v, n)[0] == BitsOf(w, n)[0];
      assert BitsOf(v, n)[1..] == BitsOf(v / 2, n - 1) && BitsOf(w, n)[1..] == BitsOf(w / 2, n - 1);
      BitsInjective(v / 2, w / 2, n - 1);
    }
  }

  // ------------------------------------------------------------ algebra of the step

  lemma StepLinear(x: Word, y: Word)
    ensures Step(Xor(x, y)) == Xor(Step(x), Step(y))
  {
  }

  lemma StepInjective(x: Word, y: Word)
    requires Step(x) == Step(y)
    ensures x == y
  {
    hide Step, Polynomial;
    forall j | 0 <= j < 32 ensures x[j] == y[j] {
      if j > 0 {
        var i := j - 1;
        assert Step(x)[i] == (x[i + 1] != (x[0] && Polynomial()[i]));
      }
    }
  }

  lemma {:induction false} StepsLinear(x: Word, y: Word, n: nat)
    ensures Steps(Xor(x, y), n) == Xor(Steps(x, n), Steps(y, n))
  {
    hide Step;
    if n > 0 {
      StepsLinear(x, y, n - 1);
      StepLinear(Steps(x, n - 1), Steps(y, n - 1));
    }
  }

  lemma {:induction false} StepsInjective(x: Word, y: Word, n: nat)
    requires Steps(x, n) == Steps(y, n)
    ensures x == y
  {
    hide Step;
    if n > 0 {
      StepInjective(Steps(x, n - 1), Steps(y, n - 1));
      StepsInjective(x, y, n - 1);
    }
  }

  lemma {:induction false} StepsCompose(x: Word, m: nat, n: nat)
    ensures Steps(Steps(x, m), n) == Steps(x, m + n)
  {
    hide Step;
    if n > 0 { StepsCompose(x, m, n - 1); }
  }

  lemma {:induction false} StepsOfZero(n: nat)
    ensures Steps(Zeros(32), n) == Zeros(32)
  {
    if n > 0 {
      StepsOfZero(n - 1);
      assert Step(Zeros(32)) == Zeros(32);
    }
  }

  lemma {:induction false} RegisterConcat(s: Word, a: Bytes, b: Bytes)
    ensures Register(s, a + b) == Register(Register(s, a), b)
    decreases |b|
  {
    hide Steps, Widen, Xor;
    if b == [] {
      assert a + b == a;
    } else {
      var n := |b| - 1;
      RegisterConcat(s, a, b[..n]);
      assert (a + b)[..|a + b| - 1] == a + b[..n];
    }
  }

  lemma XorCancels(x: Bits, y: Bits, z: Bits)
    requires |x| == |y| == |z| && Xor(x, z) == Xor(y, z)
    ensures x == y
  {
    forall i | 0 <= i < |x| ensures x[i] == y[i] {
      assert Xor(x, z)[i] == Xor(y, z)[i];
    }
  }

  lemma {:induction false} RegisterInjective(s: Word, t: Word, data: Bytes)
    requires Register(s, data) == Register(t, data)
    ensures s == t
    decreases |data|
  {
    hide Steps, Widen, Xor;
    if data != [] {
      var n := |data| - 1;
      var x, y := Register(s, data[..n]), Register(t, data[..n]);
      StepsInjective(Xor(x, Widen(data[n])), Xor(y, Widen(data[n])), 8);
      XorCancels(x, y, Widen(data[n]));
      RegisterInjective(s, t, data[..n]);
    }
  }

  // ------------------------------------------------------------ bursts

  /** `b` placed `n` bits up in a register. */
  function Placed(b: Bits, n: nat): Word
    requires n + |b| <= 32
  {
    Zeros(n) + b + Zeros(32 - n - |b|)
  }

  /** Dividing `n` steps brings bits placed `n` up back down unchanged: nothing was shifted out. */
  lemma {:induction false} PlacedTravels(b: Bits, n: nat)
    requires n + |b| <= 32
    ensures Steps(Placed(b, n), n) == Placed(b, 0)
  {
    hide Steps, Step;
    if n == 0 {
      StepsZeroTimes(Placed(b, 0));
    } else {
      StepOfPlaced(b, n);
      PlacedTravels(b, n - 1);
      StepsOnce(Placed(b, n));
      StepsCompose(Placed(b, n), 1, n - 1);
    }
  }

  lemma StepsZeroTimes(x: Word)
    ensures Steps(x, 0) == x
  {
  }

  lemma StepsOnce(x: Word)
    ensures Steps(x, 1) == Step(x)
  {
    assert Steps(x, 0) == x;
  }

  lemma StepOfPlaced(b: Bits, n: nat)
    requires 0 < n && n + |b| <= 32
    ensures Step(Placed(b, n)) == Placed(b, n - 1)
  {
    var x, y := Placed(b, n), Placed(b, n - 1);
    assert !x[0];
    forall i | 0 <= i < 32 ensures Step(x)[i] == y[i] {
      if i < 31 { assert Step(x)[i] == x[i + 1]; }
    }
  }

  /** Bit differences of two equally long byte strings, in transmission order. */
  function Differences(a: Bytes, b: Bytes): (d: Bits)
    requires |a| == |b|
    ensures |d| == 8 * |a|
  {
    if a == [] then []
    else
      var n := |a| - 1;
      Differences(a[..n], b[..n]) + Xor(BitsOf(a[n], 8), BitsOf(b[n], 8))
  }

  lemma WidenDifference(x: u8, y: u8)
    ensures Xor(Widen(x), Widen(y)) == Placed(Xor(BitsOf(x, 8), BitsOf(y, 8)), 0)
  {
  }

  lemma PlacedAppend(p: Bits, d: Bits)
    requires |p| + |d| <= 32
    ensures Xor(Placed(p, 0), Placed(d, |p|)) == Placed(p + d, 0)
  {
  }

  lemma XorRegroup(s: Bits, t: Bits, x: Bits, y: Bits)
    requires |s| == |t| == |x| == |y|
    ensures Xor(Xor(s, x), Xor(t, y)) == Xor(Xor(s, t), Xor(x, y))
  {
  }

  lemma BurstStep(x: Word, y: Word, p: Bits, u: u8, v: u8)
    requires |p| + 8 <= 32 && Xor(x, y) == Steps(Placed(p, 0), |p|)
    ensures Xor(Steps(Xor(x, Widen(u)), 8), Steps(Xor(y, Widen(v)), 8))
         == Steps(Placed(p + Xor(BitsOf(u, 8), BitsOf(v, 8)), 0), |p| + 8)
  {
    hide Xor, Steps, Placed, Widen, BitsOf;
    var d := Xor(BitsOf(u, 8), BitsOf(v, 8));
    StepsLinear(Xor(x, Widen(u)), Xor(y, Widen(v)), 8);
    XorRegroup(x, y, Widen(u), Widen(v));
    WidenDifference(u, v);
    PlacedTravels(d, |p|);
    StepsLinear(Placed(p, 0), Placed(d, |p|), |p|);
    PlacedAppend(p, d);
    StepsCompose(Placed(p + d, 0), |p|, 8);
  }

  lemma XorSelf(x: Word)
    ensures Xor(x, x) == Zeros(32)
  {
  }

  /** Two registers that start equal and absorb different bursts differ by the packed bit
      differences divided along with them. */
  lemma {:induction false} BurstDifference(s: Word, a: Bytes, b: Bytes)
    requires |a| == |b| <= 4
    ensures Xor(Register(s, a), Register(s, b)) == Steps(Placed(Differences(a, b), 0), 8 * |a|)
    decreases |a|
  {
    hide Xor, Steps, Widen, Placed, BitsOf;
    if a == [] {
      XorSelf(s);
      NothingPlaced();
    } else {
      var n := |a| - 1;
      BurstDifference(s, a[..n], b[..n]);
      BurstStep(Register(s, a[..n]), Register(s, b[..n]), Differences(a[..n], b[..n]), a[n], b[n]);
    }
  }

  lemma NothingPlaced()
    ensures Steps(Placed([], 0), 0) == Zeros(32)
  {
    assert Placed([], 0) == Zeros(32);
  }

  lemma {:induction false} NoDifferences(a: Bytes, b: Bytes)
    requires |a| == |b| && Differences(a, b) == Zeros(8 * |a|)
    ensures a == b
    decreases |a|
  {
    if a != [] {
      var n := |a| - 1;
      var x := Xor(BitsOf(a[n], 8), BitsOf(b[n], 8));
      var d := Differences(a[..n], b[..n]);
      assert (d + x)[..8 * n] == d && (d + x)[8 * n..] == x;
      assert x == Zeros(8) && d == Zeros(8 * n);
      NoDifferences(a[..n], b[..n]);
      forall i | 0 <= i < 8 ensures BitsOf(a[n], 8)[i] == BitsOf(b[n], 8)[i] {
        assert !x[i];
      }
      assert BitsOf(a[n], 8) == BitsOf(b[n], 8);
      assert Pow2(4) == 16;
      Pow2Sum(4, 4);
      BitsInjective(a[n], b[n], 8);
      assert a == a[..n] + [a[n]] && b == b[..n] + [b[n]];
    }
  }

  lemma BurstChangesRegister(s: Word, a: Bytes, b: Bytes)
    requires |a| == |b| <= 4 && Register(s, a) == Register(s, b)
    ensures a == b
  {
    hide Steps, Register, Differences, Xor;
    var p := Placed(Differences(a, b), 0);
    BurstDifference(s, a, b);
    XorSelf(Register(s, a));
    StepsOfZero(8 * |a|);
    StepsInjective(p, Zeros(32), 8 * |a|);
    assert p[..8 * |a|] == Differences(a, b);
    NoDifferences(a, b);
  }

  /** Two inputs of any length that differ only within at most four consecutive bytes have
      different CRCs. */
  lemma CrcDetectsBurst(before: Bytes, a: Bytes, b: Bytes, after: Bytes)
    requires |a| == |b| <= 4
    ensures Crc(before + a + after) == Crc(before + b + after) <==> a == b
  {
    hide Register, NumberOf, Xor;
    if Crc(before + a + after) == Crc(before + b + after) {
      var x, y := Register(Ones(), before + a + after), Register(Ones(), before + b + after);
      NumberInjective(Xor(x, Ones()), Xor(y, Ones()));
      XorCancels(x, y, Ones());
      RegisterConcat(Ones(), before + a, after);
      RegisterConcat(Ones(), before + b, after);
      RegisterInjective(Register(Ones(), before + a), Register(Ones(), before + b), after);
      RegisterConcat(Ones(), before, a);
      RegisterConcat(Ones(), before, b);
      BurstChangesRegister(Register(Ones(), before), a, b);
    }
  }
}
