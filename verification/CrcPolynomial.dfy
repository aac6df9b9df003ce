/** The frame checksum as a remainder: clause 3.2.9 of IEEE 802.3 in terms of polynomials over GF(2),
    against the register loop of src/protocol.cpp:26-38. A polynomial is the set of its exponents. */
module CrcPolynomial {
  import opened Types
  import opened Crc32
  import opened Division

  type Poly = set<nat>

  const GENERATOR: Poly := {32, 26, 23, 22, 16, 12, 11, 10, 8, 7, 5, 4, 2, 1, 0}

  /** Addition: exponents that occur in exactly one of the two. */
  function Sum(a: Poly, b: Poly): (s: Poly)
    ensures forall e :: e in s <==> ((e in a) != (e in b))
  {
    (a - b) + (b - a)
  }

  /** The product with the `n`-th power of x. */
  function Shift(a: Poly, n: nat): (s: Poly)
    ensures forall e :: e in s <==> e >= n && e - n in a
  {
    var s := set d | d in a :: d + n;
    ShiftMembers(a, n, s);
    s
  }

  lemma ShiftMembers(a: Poly, n: nat, s: Poly)
    requires s == set d | d in a :: d + n
    ensures forall e :: e in s <==> e >= n && e - n in a
  {
    forall e: nat | e >= n && e - n in a ensures e in s {
      assert e == (e - n) + n;
    }
  }

  function Largest(q: Poly): (m: nat)
    requires q != {}
    ensures m in q && forall k :: k in q ==> k <= m
  {
    LargestExists(q);
    var m :| m in q && forall k :: k in q ==> k <= m;
    m
  }

  lemma {:induction false} LargestExists(q: Poly)
    requires q != {}
    ensures exists m :: m in q && forall k :: k in q ==> k <= m
  {
    var x :| x in q;
    if q != {x} {
      LargestExists(q - {x});
      var m :| m in q - {x} && forall k :: k in q - {x} ==> k <= m;
      forall k | k in q ensures k <= x || k <= m {
        if k != x { assert k in q - {x}; }
      }
      if x > m { assert x in q && forall k :: k in q ==> k <= x; }
    }
  }

  /** The product with the generator. */
  function Times(q: Poly): Poly
    decreases |q|
  {
    if q == {} then {}
    else
      var m := Largest(q);
      Sum(Times(q - {m}), Shift(GENERATOR, m))
  }

  /** Two polynomials that differ by a multiple of the generator. */
  ghost predicate Congruent(a: Poly, b: Poly) {
    exists q: Poly :: Sum(a, b) == Times(q)
  }

  // ------------------------------------------------------------ multiples

  lemma SumRegroup(a: Poly, b: Poly, c: Poly)
    ensures Sum(Sum(a, b), c) == Sum(Sum(a, c), b) == Sum(a, Sum(b, c))
    ensures Sum(Sum(a, b), b) == a && Sum(a, {}) == a == Sum({}, a)
  {
  }

  lemma TimesUnfold(q: Poly)
    requires q != {}
    ensures Times(q) == Sum(Times(q - {Largest(q)}), Shift(GENERATOR, Largest(q)))
  {
  }

  /** Adding one power of x to the factor adds one shifted generator to the product. */
  lemma {:induction false} TimesToggle(q: Poly, k: nat)
    ensures Times(Sum(q, {k})) == Sum(Times(q), Shift(GENERATOR, k))
    decreases |q|
  {
    hide Shift;
    var g := Shift(GENERATOR, k);
    if q == {} || k > Largest(q) {
      assert Largest(Sum(q, {k})) == k;
      assert Sum(q, {k}) - {k} == q;
    } else {
      var m := Largest(q);
      if k == m {
        assert Sum(q, {k}) == q - {k};
        SumRegroup(Times(q - {k}), g, g);
      } else {
        assert Largest(Sum(q, {k})) == m;
        assert Sum(q, {k}) - {m} == Sum(q - {m}, {k});
        TimesToggle(q - {m}, k);
        SumRegroup(Times(q - {m}), g, Shift(GENERATOR, m));
      }
    }
  }

  lemma SumSplit(p: Poly, q: Poly, m: nat)
    requires m in q
    ensures Sum(p, q) == Sum(Sum(p, q - {m}), {m})
  {
  }

  lemma {:induction false} TimesSum(p: Poly, q: Poly)
    ensures Times(Sum(p, q)) == Sum(Times(p), Times(q))
    decreases |q|
  {
    hide Shift;
    if q == {} {
      assert Sum(p, q) == p;
      SumRegroup(Times(p), {}, {});
    } else {
      TimesUnfold(q);
      var m := Largest(q);
      var r := q - {m};
      TimesSum(p, r);
      SumSplit(p, q, m);
      TimesToggle(Sum(p, r), m);
      hide Sum, Times, Largest;
      SumRegroup(Times(p), Times(r), Shift(GENERATOR, m));
    }
  }

  lemma ShiftSum(a: Poly, b: Poly, n: nat)
    ensures Shift(Sum(a, b), n) == Sum(Shift(a, n), Shift(b, n))
  {
  }

  lemma ShiftShift(a: Poly, m: nat, n: nat)
    ensures Shift(Shift(a, m), n) == Shift(a, m + n) && Shift(a, 0) == a
  {
  }

  lemma ShiftSplit(q: Poly, m: nat, n: nat)
    requires m in q
    ensures Shift(q, n) == Sum(Shift(q - {m}, n), {m + n})
  {
  }

  lemma TimesNothing(n: nat)
    ensures Times({}) == {} && Shift({}, n) == {}
  {
  }

  lemma {:induction false} TimesShift(q: Poly, n: nat)
    ensures Times(Shift(q, n)) == Shift(Times(q), n)
    decreases |q|
  {
    hide Times, Sum, Shift, Largest;
    if q == {} {
      TimesNothing(n);
    } else {
      var m := Largest(q);
      var r := q - {m};
      TimesUnfold(q);
      TimesShift(r, n);
      ShiftSplit(q, m, n);
      TimesToggle(Shift(r, n), m + n);
      ShiftSum(Times(r), Shift(GENERATOR, m), n);
      ShiftShift(GENERATOR, m, n);
    }
  }

  lemma GeneratorDegree(m: nat)
    ensures m + 32 in Shift(GENERATOR, m) && forall e :: e in Shift(GENERATOR, m) ==> e <= m + 32
  {
    assert 32 in GENERATOR;
  }

  /** The product has the degree of the factor plus 32. */
  lemma {:induction false} TimesDegree(q: Poly)
    requires q != {}
    ensures Largest(q) + 32 in Times(q) && forall e :: e in Times(q) ==> e <= Largest(q) + 32
    decreases |q|
  {
    var m := Largest(q);
    TimesUnfold(q);
    GeneratorDegree(m);
    if q - {m} != {} { TimesDegree(q - {m}); }
    hide Shift;
  }

  // ------------------------------------------------------------ congruence

  lemma SumExchange(a: Poly, b: Poly, c: Poly, d: Poly)
    ensures Sum(Sum(a, c), Sum(b, d)) == Sum(Sum(a, b), Sum(c, d))
  {
  }

  lemma SumThrough(a: Poly, b: Poly, c: Poly)
    ensures Sum(a, c) == Sum(Sum(a, b), Sum(b, c))
  {
  }

  lemma CongruentSum(a: Poly, b: Poly, c: Poly, d: Poly)
    requires Congruent(a, b) && Congruent(c, d)
    ensures Congruent(Sum(a, c), Sum(b, d))
  {
    hide Sum, Times;
    var p: Poly :| Sum(a, b) == Times(p);
    var q: Poly :| Sum(c, d) == Times(q);
    TimesSum(p, q);
    SumExchange(a, b, c, d);
  }

  lemma CongruentRefl(a: Poly)
    ensures Congruent(a, a)
  {
    assert Sum(a, a) == Times({});
  }

  lemma CongruentTrans(a: Poly, b: Poly, c: Poly)
    requires Congruent(a, b) && Congruent(b, c)
    ensures Congruent(a, c)
  {
    hide Sum, Times;
    var p: Poly :| Sum(a, b) == Times(p);
    var q: Poly :| Sum(b, c) == Times(q);
    TimesSum(p, q);
    SumThrough(a, b, c);
  }

  lemma CongruentShift(a: Poly, b: Poly, n: nat)
    requires Congruent(a, b)
    ensures Congruent(Shift(a, n), Shift(b, n))
  {
    var q: Poly :| Sum(a, b) == Times(q);
    TimesShift(q, n);
    ShiftSum(a, b, n);
  }

  /** A remainder of degree below 32 is unique. */
  lemma RemainderUnique(a: Poly, b: Poly)
    requires Congruent(a, b) && (forall e :: e in a || e in b ==> e < 32)
    ensures a == b
  {
    var q: Poly :| Sum(a, b) == Times(q);
    if q != {} { TimesDegree(q); }
    assert Sum(a, b) == {};
    assert forall e :: e in a <==> e in b;
  }

  // ------------------------------------------------------------ bits of numbers

  /** Binary digit `i` of `v`. */
  predicate Digit(v: nat, i: nat) {
    v / Pow2(i) % 2 == 1
  }

  lemma DigitBelow(v: nat, i: nat)
    requires i > 0
    ensures Digit(v, i) == Digit(v / 2, i - 1)
  {
    DivideTwice(v, 2, Pow2(i - 1));
  }

  lemma {:induction false} DigitsOf(v: nat, n: nat, i: nat)
    requires i < n
    ensures BitsOf(v, n)[i] == Digit(v, i)
  {
    if i > 0 {
      DigitBelow(v, i);
      DigitsOf(v / 2, n - 1, i - 1);
    }
  }

  lemma LowDigit(v: nat, c: nat, k: nat)
    requires v == c + 2 * k && c < 2
    ensures v / 2 == k && Digit(v, 0) == (c == 1)
  {
    assert Pow2(0) == 1;
  }

  lemma NumberSplit(b: Bits)
    requires b != []
    ensures NumberOf(b) == (if b[0] then 1 else 0) + 2 * NumberOf(b[1..])
  {
  }

  lemma NumberHalves(b: Bits)
    requires b != []
    ensures NumberOf(b) / 2 == NumberOf(b[1..]) && b[0] == Digit(NumberOf(b), 0)
  {
    hide Digit;
    NumberSplit(b);
    hide NumberOf;
    LowDigit(NumberOf(b), if b[0] then 1 else 0, NumberOf(b[1..]));
  }

  lemma {:induction false} DigitsOfNumber(b: Bits, i: nat)
    requires i < |b|
    ensures b[i] == Digit(NumberOf(b), i)
  {
    hide Digit, NumberOf;
    NumberHalves(b);
    if i > 0 {
      DigitBelow(NumberOf(b), i);
      DigitsOfNumber(b[1..], i - 1);
    }
  }

  lemma GeneratorBits(j: nat)
    requires j < 32
    ensures Polynomial()[j] == (31 - j in GENERATOR)
  {
    LowGenerator();
    HighGenerator();
  }

  lemma LowGenerator()
    ensures BitsOf(0x20, 8) == [false, false, false, false, false, true, false, false]
    ensures BitsOf(0x83, 8) == [true, true, false, false, false, false, false, true]
  {
  }

  lemma HighGenerator()
    ensures BitsOf(0xB8, 8) == [false, false, false, true, true, true, false, true]
    ensures BitsOf(0xED, 8) == [true, false, true, true, false, true, true, true]
  {
  }

  // ------------------------------------------------------------ registers

  /** The low bit of a register belongs to the highest power. */
  predicate Coefficient(x: Word, e: nat) {
    e < 32 && x[31 - e]
  }

  function PolyOf(x: Word): Poly {
    set e: nat | e < 32 && Coefficient(x, e)
  }

  lemma XorIsSum(x: Word, y: Word)
    ensures PolyOf(Xor(x, y)) == Sum(PolyOf(x), PolyOf(y))
  {
  }

  lemma StepDifference(x: Word, e: nat)
    ensures e in Sum(PolyOf(Step(x)), Shift(PolyOf(x), 1)) <==> x[0] && e in GENERATOR
  {
    hide Step, Polynomial;
    if 1 <= e < 32 { GeneratorBits(31 - e); }
  }

  /** A step multiplies by x modulo the generator. */
  lemma StepIsTimesX(x: Word)
    ensures Congruent(PolyOf(Step(x)), Shift(PolyOf(x), 1))
  {
    hide Step, PolyOf, Sum, Shift, Times;
    var d := Sum(PolyOf(Step(x)), Shift(PolyOf(x), 1));
    forall e: nat ensures e in d <==> x[0] && e in GENERATOR { StepDifference(x, e); }
    TimesSmall();
    if x[0] {
      assert d == GENERATOR;
    } else {
      assert d == {};
    }
  }

  lemma TimesSmall()
    ensures Times({0}) == GENERATOR && Times({}) == {}
  {
    assert Largest({0}) == 0;
    assert {0} - {0} == {};
  }

  lemma {:induction false} StepsAreShifts(x: Word, n: nat)
    ensures Congruent(PolyOf(Steps(x, n)), Shift(PolyOf(x), n))
  {
    hide Step, PolyOf, Sum, Shift, Congruent;
    if n == 0 {
      ShiftShift(PolyOf(x), 0, 0);
      CongruentRefl(PolyOf(x));
    } else {
      var y := Steps(x, n - 1);
      StepsAreShifts(x, n - 1);
      StepIsTimesX(y);
      CongruentShift(PolyOf(y), Shift(PolyOf(x), n - 1), 1);
      ShiftShift(PolyOf(x), n - 1, 1);
      CongruentTrans(PolyOf(Step(y)), Shift(PolyOf(y), 1), Shift(PolyOf(x), n));
    }
  }

  // ------------------------------------------------------------ messages

  /** Bit `k` of a message in transmission order: the low bit of each byte goes first. */
  predicate MessageBit(data: Bytes, k: nat) {
    k < 8 * |data| && Digit(data[k / 8], k % 8)
  }

  /** The first bit of a message belongs to the highest power. */
  predicate MessageCoefficient(data: Bytes, e: nat) {
    e < 8 * |data| && MessageBit(data, 8 * |data| - 1 - e)
  }

  function Message(data: Bytes): Poly {
    set e: nat | e < 8 * |data| && MessageCoefficient(data, e)
  }

  lemma WidenDigits(b: u8, e: nat)
    ensures Coefficient(Widen(b), e) <==> e >= 24 && MessageCoefficient([b], e - 24)
  {
    hide Digit;
    if 24 <= e < 32 {
      DigitsOf(b, 8, 31 - e);
      assert (31 - e) / 8 == 0 && (31 - e) % 8 == 31 - e;
    }
  }

  lemma WidenIsShift(b: u8)
    ensures PolyOf(Widen(b)) == Shift(Message([b]), 24)
  {
    forall e: nat ensures e in PolyOf(Widen(b)) <==> e in Shift(Message([b]), 24) {
      WidenDigits(b, e);
      hide Widen, MessageCoefficient;
    }
  }

  lemma MessageStepAt(data: Bytes, b: u8, e: nat)
    ensures MessageCoefficient(data + [b], e)
      <==> if e < 8 then MessageCoefficient([b], e) else MessageCoefficient(data, e - 8)
  {
    hide Digit;
    var n := |data|;
    if e < 8 * n + 8 {
      var k := 8 * n + 7 - e;
      if e < 8 {
        assert k / 8 == n && k % 8 == 7 - e && (7 - e) / 8 == 0 && (7 - e) % 8 == 7 - e;
      } else {
        assert k / 8 < n;
      }
    }
  }

  lemma MessageStep(data: Bytes, b: u8)
    ensures Message(data + [b]) == Sum(Shift(Message(data), 8), Message([b]))
  {
    forall e: nat ensures e in Message(data + [b]) <==> e in Sum(Shift(Message(data), 8), Message([b])) {
      MessageStepAt(data, b, e);
      hide MessageCoefficient;
    }
  }

  // ------------------------------------------------------------ the checksum

  /** The `n` lowest powers, every one present. */
  function Powers(n: nat): (p: Poly)
    ensures forall e: nat :: e in p <==> e < n
  {
    if n == 0 then {}
    else
      var k: nat := n - 1;
      Powers(k) + {k}
  }

  /** The message followed by 32 zero bits, its first 32 bits complemented. */
  function Dividend(data: Bytes): Poly {
    Sum(Shift(Message(data), 32), Shift(Powers(32), 8 * |data|))
  }

  lemma OnesIsPowers()
    ensures PolyOf(Ones()) == Powers(32)
  {
  }

  lemma DividendStep(data: Bytes, b: u8)
    ensures Dividend(data + [b]) == Sum(Shift(Dividend(data), 8), Shift(Message([b]), 32))
  {
    MessageStep(data, b);
    hide Sum, Shift, Message, Powers;
    var m, l := Message(data), Shift(Powers(32), 8 * |data|);
    ShiftSum(Shift(m, 8), Message([b]), 32);
    ShiftShift(m, 8, 32);
    ShiftShift(m, 32, 8);
    ShiftSum(Shift(m, 32), l, 8);
    ShiftShift(Powers(32), 8 * |data|, 8);
    SumRegroup(Shift(m, 40), Shift(Message([b]), 32), Shift(Powers(32), 8 * |data| + 8));
  }

  /** After any number of bytes the register is congruent to the dividend. */
  lemma {:induction false} RegisterIsRemainder(data: Bytes)
    ensures Congruent(PolyOf(Register(Ones(), data)), Dividend(data))
    decreases |data|
  {
    if data == [] {
      NothingDivided();
      CongruentRefl(Powers(32));
    } else {
      var n := |data| - 1;
      RegisterIsRemainder(data[..n]);
      assert data == data[..n] + [data[n]];
      RegisterStep(Register(Ones(), data[..n]), data[..n], data[n]);
    }
  }

  lemma NothingDivided()
    ensures PolyOf(Register(Ones(), [])) == Dividend([]) == Powers(32)
  {
    OnesIsPowers();
    NoMessage();
    hide Message, Powers, PolyOf, Ones, Sum, Shift;
    ShiftShift(Powers(32), 0, 0);
    SumRegroup(Powers(32), {}, {});
  }

  lemma NoMessage()
    ensures Message([]) == {} && Shift({}, 32) == {}
  {
  }

  lemma RegisterStep(x: Word, data: Bytes, b: u8)
    requires Congruent(PolyOf(x), Dividend(data))
    ensures Congruent(PolyOf(Steps(Xor(x, Widen(b)), 8)), Dividend(data + [b]))
  {
    hide Congruent, PolyOf, Dividend, Steps, Widen, Xor, Sum, Shift, Message;
    var y := Xor(x, Widen(b));
    StepsAreShifts(y, 8);
    XorIsSum(x, Widen(b));
    WidenIsShift(b);
    ShiftSum(PolyOf(x), PolyOf(Widen(b)), 8);
    ShiftShift(Message([b]), 24, 8);
    CongruentShift(PolyOf(x), Dividend(data), 8);
    CongruentRefl(Shift(Message([b]), 32));
    CongruentSum(Shift(PolyOf(x), 8), Shift(Dividend(data), 8), Shift(Message([b]), 32), Shift(Message([b]), 32));
    DividendStep(data, b);
    CongruentTrans(PolyOf(Steps(y, 8)), Shift(PolyOf(y), 8), Dividend(data + [b]));
  }

  /** The checksum as a polynomial: its least significant bit belongs to the highest power. */
  predicate ChecksumCoefficient(c: u32, e: nat) {
    e < 32 && Digit(c, 31 - e)
  }

  function Checksum(c: u32): Poly {
    set e: nat | e < 32 && ChecksumCoefficient(c, e)
  }

  lemma ChecksumOfRegister(x: Word)
    ensures Checksum(WordValue(x)) == PolyOf(x)
  {
    forall e: nat ensures e in Checksum(WordValue(x)) <==> e in PolyOf(x) {
      if e < 32 { DigitsOfNumber(x, 31 - e); }
      hide Digit, NumberOf;
    }
  }

  lemma ChecksumDigit(c: u32, i: nat)
    requires i < 32
    ensures BitsOf(c, 32)[i] <==> 31 - i in Checksum(c)
  {
    hide Digit;
    DigitsOf(c, 32, i);
    var e: nat := 31 - i;
    assert ChecksumCoefficient(c, e) == Digit(c, i);
  }

  lemma Pow32()
    ensures Pow2(32) == TWO_32
  {
    assert Pow2(4) == 16;
    Pow2Sum(4, 4);
    Pow2Sum(8, 8);
    Pow2Sum(16, 16);
  }

  lemma ChecksumInjective(c: u32, d: u32)
    requires Checksum(c) == Checksum(d)
    ensures c == d
  {
    hide Checksum, BitsOf, Pow2;
    forall i | 0 <= i < 32 ensures BitsOf(c, 32)[i] == BitsOf(d, 32)[i] {
      ChecksumDigit(c, i);
      ChecksumDigit(d, i);
    }
    assert BitsOf(c, 32) == BitsOf(d, 32);
    Pow32();
    BitsInjective(c, d, 32);
  }

  /** Clause 3.2.9 of IEEE 802.3: the checksum is the one number whose bits, complemented, are the
      remainder of the message, its first 32 bits complemented, modulo the generator. */
  lemma CrcIsRemainder(data: Bytes, c: u32)
    ensures c == Crc(data) <==> Congruent(Sum(Checksum(c), Powers(32)), Dividend(data))
  {
    var x := Register(Ones(), data);
    RegisterIsRemainder(data);
    ChecksumOfRegister(Xor(x, Ones()));
    XorIsSum(x, Ones());
    OnesIsPowers();
    hide Congruent, PolyOf, Dividend, Register, Xor, Ones, WordValue, Checksum, Sum, Powers;
    SumRegroup(PolyOf(x), Powers(32), Powers(32));
    assert Sum(Checksum(Crc(data)), Powers(32)) == PolyOf(x);
    if Congruent(Sum(Checksum(c), Powers(32)), Dividend(data)) { OneChecksum(data, c, x); }
  }

  lemma CongruentSym(a: Poly, b: Poly)
    requires Congruent(a, b)
    ensures Congruent(b, a)
  {
    var q: Poly :| Sum(a, b) == Times(q);
    assert Sum(b, a) == Sum(a, b);
  }

  lemma OneChecksum(data: Bytes, c: u32, x: Word)
    requires Congruent(PolyOf(x), Dividend(data)) && Sum(Checksum(Crc(data)), Powers(32)) == PolyOf(x)
    requires Congruent(Sum(Checksum(c), Powers(32)), Dividend(data))
    ensures c == Crc(data)
  {
    hide Congruent, Dividend, Crc;
    var r := Sum(Checksum(c), Powers(32));
    CongruentSym(PolyOf(x), Dividend(data));
    CongruentTrans(r, Dividend(data), PolyOf(x));
    RemainderUnique(r, PolyOf(x));
    SumRegroup(Checksum(c), Powers(32), Powers(32));
    SumRegroup(Checksum(Crc(data)), Powers(32), Powers(32));
    ChecksumInjective(c, Crc(data));
  }
}
