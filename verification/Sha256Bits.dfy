/** The word functions of SHA-256 bit by bit (section 4.1.2 of FIPS 180-4; src/core.cpp:103-141). */
module Sha256Bits {
  import opened Sha256

  /** Bit `i` of a word, counted from the least significant; indices are taken modulo 32. */
  predicate Bit(x: bv32, i: bv5) {
    (x >> i) & 1 == 1
  }

  function And(x: bv32, y: bv32): bv32 { x & y }
  function Not(x: bv32): bv32 { !x }

  lemma ExclusiveOrBit(x: bv32, y: bv32, i: bv5)
    ensures Bit(x ^ y, i) == (Bit(x, i) != Bit(y, i))
  {
  }

  lemma XorBit(x: bv32, y: bv32, i: bv5)
    ensures Bit(Xor(x, y), i) == (Bit(x, i) != Bit(y, i))
  {
    hide Bit;
    ExclusiveOrBit(x, y, i);
  }

  lemma AndBit(x: bv32, y: bv32, i: bv5)
    ensures Bit(And(x, y), i) == (Bit(x, i) && Bit(y, i))
  {
  }

  lemma NotBit(x: bv32, i: bv5)
    ensures Bit(Not(x), i) == !Bit(x, i)
  {
  }

  lemma Shift3(x: bv32, i: bv5)
    ensures Bit(Shr(x, 3), i) == (i < 29 && Bit(x, i + 3))
  {
  }

  lemma Shift10(x: bv32, i: bv5)
    ensures Bit(Shr(x, 10), i) == (i < 22 && Bit(x, i + 10))
  {
  }

  lemma Rotate2(x: bv32, i: bv5)
    ensures Bit(Rotr(x, 2), i) == Bit(x, i + 2)
  {
  }

  lemma Rotate13(x: bv32, i: bv5)
    ensures Bit(Rotr(x, 13), i) == Bit(x, i + 13)
  {
  }

  lemma Rotate22(x: bv32, i: bv5)
    ensures Bit(Rotr(x, 22), i) == Bit(x, i + 22)
  {
  }

  lemma Rotate6(x: bv32, i: bv5)
    ensures Bit(Rotr(x, 6), i) == Bit(x, i + 6)
  {
  }

  lemma Rotate11(x: bv32, i: bv5)
    ensures Bit(Rotr(x, 11), i) == Bit(x, i + 11)
  {
  }

  lemma Rotate25(x: bv32, i: bv5)
    ensures Bit(Rotr(x, 25), i) == Bit(x, i + 25)
  {
  }

  lemma Rotate7(x: bv32, i: bv5)
    ensures Bit(Rotr(x, 7), i) == Bit(x, i + 7)
  {
  }

  lemma Rotate18(x: bv32, i: bv5)
    ensures Bit(Rotr(x, 18), i) == Bit(x, i + 18)
  {
  }

  lemma Rotate17(x: bv32, i: bv5)
    ensures Bit(Rotr(x, 17), i) == Bit(x, i + 17)
  {
  }

  lemma Rotate19(x: bv32, i: bv5)
    ensures Bit(Rotr(x, 19), i) == Bit(x, i + 19)
  {
  }

  /** The large sigmas add three rotations. */
  lemma BigSigma0Bits(x: bv32, i: bv5)
    ensures Bit(BigSigma0(x), i) == (Bit(x, i + 2) != (Bit(x, i + 13) != Bit(x, i + 22)))
  {
    hide Bit, Xor, Rotr, Shr;
    XorBit(Xor(Rotr(x, 2), Rotr(x, 13)), Rotr(x, 22), i);
    XorBit(Rotr(x, 2), Rotr(x, 13), i);
    Rotate2(x, i);
    Rotate13(x, i);
    Rotate22(x, i);
  }

  lemma BigSigma1Bits(x: bv32, i: bv5)
    ensures Bit(BigSigma1(x), i) == (Bit(x, i + 6) != (Bit(x, i + 11) != Bit(x, i + 25)))
  {
    hide Bit, Xor, Rotr, Shr;
    XorBit(Xor(Rotr(x, 6), Rotr(x, 11)), Rotr(x, 25), i);
    XorBit(Rotr(x, 6), Rotr(x, 11), i);
    Rotate6(x, i);
    Rotate11(x, i);
    Rotate25(x, i);
  }

  /** The small sigmas add two rotations and a shift that brings in zeros. */
  lemma SmallSigma0Bits(x: bv32, i: bv5)
    ensures Bit(SmallSigma0(x), i) == (Bit(x, i + 7) != (Bit(x, i + 18) != (i < 29 && Bit(x, i + 3))))
  {
    hide Bit, Xor, Rotr, Shr;
    XorBit(Xor(Rotr(x, 7), Rotr(x, 18)), Shr(x, 3), i);
    XorBit(Rotr(x, 7), Rotr(x, 18), i);
    Rotate7(x, i);
    Rotate18(x, i);
    Shift3(x, i);
  }

  lemma SmallSigma1Bits(x: bv32, i: bv5)
    ensures Bit(SmallSigma1(x), i) == (Bit(x, i + 17) != (Bit(x, i + 19) != (i < 22 && Bit(x, i + 10))))
  {
    hide Bit, Xor, Rotr, Shr;
    XorBit(Xor(Rotr(x, 17), Rotr(x, 19)), Shr(x, 10), i);
    XorBit(Rotr(x, 17), Rotr(x, 19), i);
    Rotate17(x, i);
    Rotate19(x, i);
    Shift10(x, i);
  }

  /** The first word chooses between the other two. */
  lemma ChForm(x: bv32, y: bv32, z: bv32)
    ensures Ch(x, y, z) == Xor(And(x, y), And(Not(x), z))
  {
    hide Xor;
  }

  lemma ChBits(x: bv32, y: bv32, z: bv32, i: bv5)
    ensures Bit(Ch(x, y, z), i) == if Bit(x, i) then Bit(y, i) else Bit(z, i)
  {
    ChForm(x, y, z);
    hide Bit, Xor, And, Not, Ch;
    XorBit(And(x, y), And(Not(x), z), i);
    AndBit(x, y, i);
    AndBit(Not(x), z, i);
    NotBit(x, i);
  }

  /** At least two of the three. */
  lemma MajForm(x: bv32, y: bv32, z: bv32)
    ensures Maj(x, y, z) == Xor(Xor(And(x, y), And(x, z)), And(y, z))
  {
    hide Xor;
  }

  lemma MajBits(x: bv32, y: bv32, z: bv32, i: bv5)
    ensures Bit(Maj(x, y, z), i)
      == ((Bit(x, i) && Bit(y, i)) || (Bit(x, i) && Bit(z, i)) || (Bit(y, i) && Bit(z, i)))
  {
    MajForm(x, y, z);
    hide Bit, Xor, And, Maj;
    XorBit(Xor(And(x, y), And(x, z)), And(y, z), i);
    XorBit(And(x, y), And(x, z), i);
    AndBit(x, y, i);
    AndBit(x, z, i);
    AndBit(y, z, i);
  }
}
