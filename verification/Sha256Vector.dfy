/** The published example of SHA-256 (section B.1 of FIPS 180-2; tests/test_main.cpp:154-157): the
    digest of "abc", word by word and round by round. */
module Sha256Vector {
  import opened Types
  import opened BigEndian
  import opened Sha256

  const ABC: Bytes := [0x61, 0x62, 0x63]

  /** Word `t` of the schedule in terms of the block and of earlier words. */
  lemma {:induction false} ScheduleWord(m: Block, n: nat, t: nat)
    requires t < n <= 64
    ensures var w := Schedule(m, n);
            w[t] == if t < 16 then WordOf(m[4 * t], m[4 * t + 1], m[4 * t + 2], m[4 * t + 3])
                    else Add(Add(Add(SmallSigma1(w[t - 2]), w[t - 7]), SmallSigma0(w[t - 15])), w[t - 16])
    decreases n
  {
    hide SmallSigma0, SmallSigma1, Add, WordOf;
    if t < n - 1 { ScheduleWord(m, n - 1, t); }
  }

  /** "abc", a 0x80 byte, 52 zero bytes and the length 24 in 64 bits. */
  function AbcBlock(): Block {
    [0x61, 0x62, 0x63, 0x80] + seq(59, _ => 0) + [24]
  }

  lemma BE24()
    ensures BE(24, 8) == seq(7, _ => 0) + [24]
  {
    assert BE(0, 7) == seq(7, _ => 0) by { Zeros(7); }
  }

  lemma {:induction false} Zeros(n: nat)
    ensures BE(0, n) == seq(n, _ => 0)
  {
    if n > 0 { Zeros(n - 1); }
  }

  lemma AbcPadding()
    ensures Pad(ABC) == AbcBlock()
  {
    assert ZeroCount(3) == 52;
    BE24();
    hide BE, ZeroCount;
  }

  /** The bytes of that block. */
  predicate IsAbc(m: Block) {
    && m[0] == 0x61 && m[1] == 0x62 && m[2] == 0x63 && m[3] == 0x80 && m[63] == 24
    && forall k :: 4 <= k < 63 ==> m[k] == 0
  }

  function Word(m: Block, t: nat): bv32
    requires t < 64
  {
    Schedule(m, 64)[t]
  }

  /** The working variables after `n` rounds. */
  function State(m: Block, n: nat): Words8
    requires n <= 64
  {
    Rounds(INITIAL, Schedule(m, 64), n)
  }

  lemma BlockWords()
    ensures WordOf(0x61, 0x62, 0x63, 0x80) == 0x61626380 && WordOf(0, 0, 0, 0) == 0 && WordOf(0, 0, 0, 24) == 24
  {
  }

  lemma AbcWords0To15(m: Block)
    requires IsAbc(m)
    ensures Word(m, 0) == 0x61626380 && Word(m, 1) == 0x00000000
    ensures Word(m, 2) == 0x00000000 && Word(m, 3) == 0x00000000
    ensures Word(m, 4) == 0x00000000 && Word(m, 5) == 0x00000000
    ensures Word(m, 6) == 0x00000000 && Word(m, 7) == 0x00000000
    ensures Word(m, 8) == 0x00000000 && Word(m, 9) == 0x00000000
    ensures Word(m, 10) == 0x00000000 && Word(m, 11) == 0x00000000
    ensures Word(m, 12) == 0x00000000 && Word(m, 13) == 0x00000000
    ensures Word(m, 14) == 0x00000000 && Word(m, 15) == 0x00000018
  {
    BlockWords();
    hide Schedule, WordOf;
    ScheduleWord(m, 64, 0); ScheduleWord(m, 64, 1);
    ScheduleWord(m, 64, 2); ScheduleWord(m, 64, 3);
    ScheduleWord(m, 64, 4); ScheduleWord(m, 64, 5);
    ScheduleWord(m, 64, 6); ScheduleWord(m, 64, 7);
    ScheduleWord(m, 64, 8); ScheduleWord(m, 64, 9);
    ScheduleWord(m, 64, 10); ScheduleWord(m, 64, 11);
    ScheduleWord(m, 64, 12); ScheduleWord(m, 64, 13);
    ScheduleWord(m, 64, 14); ScheduleWord(m, 64, 15);
  }

  lemma NextWord(m: Block, t: nat)
    requires 16 <= t < 64
    ensures Word(m, t)
      == Add(Add(Add(SmallSigma1(Word(m, t - 2)), Word(m, t - 7)), SmallSigma0(Word(m, t - 15))), Word(m, t - 16))
  {
    hide Schedule, SmallSigma0, SmallSigma1, Add;
    ScheduleWord(m, 64, t);
  }

  lemma AbcWords16To23(m: Block)
    requires IsAbc(m)
    ensures Word(m, 16) == 0x61626380 && Word(m, 17) == 0x000f0000
    ensures Word(m, 18) == 0x7da86405 && Word(m, 19) == 0x600003c6
    ensures Word(m, 20) == 0x3e9d7b78 && Word(m, 21) == 0x0183fc00
    ensures Word(m, 22) == 0x12dcbfdb && Word(m, 23) == 0xe2e2c38e
  {
    hide Word, IsAbc;
    AbcWords0To15(m);
    NextWord(m, 16); NextWord(m, 17); NextWord(m, 18); NextWord(m, 19);
    NextWord(m, 20); NextWord(m, 21); NextWord(m, 22); NextWord(m, 23);
  }

  lemma AbcWords24To31(m: Block)
    requires IsAbc(m)
    ensures Word(m, 24) == 0xc8215c1a && Word(m, 25) == 0xb73679a2
    ensures Word(m, 26) == 0xe5bc3909 && Word(m, 27) == 0x32663c5b
    ensures Word(m, 28) == 0x9d209d67 && Word(m, 29) == 0xec8726cb
    ensures Word(m, 30) == 0x702138a4 && Word(m, 31) == 0xd3b7973b
  {
    hide Word, IsAbc;
    AbcWords0To15(m);
    AbcWords16To23(m);
    NextWord(m, 24); NextWord(m, 25); NextWord(m, 26); NextWord(m, 27);
    NextWord(m, 28); NextWord(m, 29); NextWord(m, 30); NextWord(m, 31);
  }

  lemma AbcWords32To39(m: Block)
    requires IsAbc(m)
    ensures Word(m, 32) == 0x93f5997f && Word(m, 33) == 0x3b68ba73
    ensures Word(m, 34) == 0xaff4ffc1 && Word(m, 35) == 0xf10a5c62
    ensures Word(m, 36) == 0x0a8b3996 && Word(m, 37) == 0x72af830a
    ensures Word(m, 38) == 0x9409e33e && Word(m, 39) == 0x24641522
  {
    hide Word, IsAbc;
    AbcWords16To23(m);
    AbcWords24To31(m);
    NextWord(m, 32); NextWord(m, 33); NextWord(m, 34); NextWord(m, 35);
    NextWord(m, 36); NextWord(m, 37); NextWord(m, 38); NextWord(m, 39);
  }

  lemma AbcWords40To47(m: Block)
    requires IsAbc(m)
    ensures Word(m, 40) == 0x9f47bf94 && Word(m, 41) == 0xf0a64f5a
    ensures Word(m, 42) == 0x3e246a79 && Word(m, 43) == 0x27333ba3
    ensures Word(m, 44) == 0x0c4763f2 && Word(m, 45) == 0x840abf27
    ensures Word(m, 46) == 0x7a290d5d && Word(m, 47) == 0x065c43da
  {
    hide Word, IsAbc;
    AbcWords24To31(m);
    AbcWords32To39(m);
    NextWord(m, 40); NextWord(m, 41); NextWord(m, 42); NextWord(m, 43);
    NextWord(m, 44); NextWord(m, 45); NextWord(m, 46); NextWord(m, 47);
  }

  lemma AbcWords48To55(m: Block)
    requires IsAbc(m)
    ensures Word(m, 48) == 0xfb3e89cb && Word(m, 49) == 0xcc7617db
    ensures Word(m, 50) == 0xb9e66c34 && Word(m, 51) == 0xa9993667
    ensures Word(m, 52) == 0x84badedd && Word(m, 53) == 0xc21462bc
    ensures Word(m, 54) == 0x1487472c && Word(m, 55) == 0xb20f7a99
  {
    hide Word, IsAbc;
    AbcWords32To39(m);
    AbcWords40To47(m);
    NextWord(m, 48); NextWord(m, 49); NextWord(m, 50); NextWord(m, 51);
    NextWord(m, 52); NextWord(m, 53); NextWord(m, 54); NextWord(m, 55);
  }

  lemma AbcWords56To63(m: Block)
    requires IsAbc(m)
    ensures Word(m, 56) == 0xef57b9cd && Word(m, 57) == 0xebe6b238
    ensures Word(m, 58) == 0x9fe3095e && Word(m, 59) == 0x78bc8d4b
    ensures Word(m, 60) == 0xa43fcf15 && Word(m, 61) == 0x668b2ff8
    ensures Word(m, 62) == 0xeeaba2cc && Word(m, 63) == 0x12b1edeb
  {
    hide Word, IsAbc;
    AbcWords40To47(m);
    AbcWords48To55(m);
    NextWord(m, 56); NextWord(m, 57); NextWord(m, 58); NextWord(m, 59);
    NextWord(m, 60); NextWord(m, 61); NextWord(m, 62); NextWord(m, 63);
  }

  lemma NextState(m: Block, n: nat)
    requires n < 64
    ensures State(m, n + 1) == Round(State(m, n), RoundConstant(n), Word(m, n))
  {
    hide Schedule, Round, RoundConstant;
  }

  lemma FirstState(m: Block)
    ensures State(m, 0) == INITIAL
  {
  }

  lemma Constants0To7()
    ensures RoundConstant(0) == 0x428a2f98 && RoundConstant(1) == 0x71374491
    ensures RoundConstant(2) == 0xb5c0fbcf && RoundConstant(3) == 0xe9b5dba5
    ensures RoundConstant(4) == 0x3956c25b && RoundConstant(5) == 0x59f111f1
    ensures RoundConstant(6) == 0x923f82a4 && RoundConstant(7) == 0xab1c5ed5
  {
  }

  lemma Constants8To15()
    ensures RoundConstant(8) == 0xd807aa98 && RoundConstant(9) == 0x12835b01
    ensures RoundConstant(10) == 0x243185be && RoundConstant(11) == 0x550c7dc3
    ensures RoundConstant(12) == 0x72be5d74 && RoundConstant(13) == 0x80deb1fe
    ensures RoundConstant(14) == 0x9bdc06a7 && RoundConstant(15) == 0xc19bf174
  {
  }

  lemma Constants16To23()
    ensures RoundConstant(16) == 0xe49b69c1 && RoundConstant(17) == 0xefbe4786
    ensures RoundConstant(18) == 0x0fc19dc6 && RoundConstant(19) == 0x240ca1cc
    ensures RoundConstant(20) == 0x2de92c6f && RoundConstant(21) == 0x4a7484aa
    ensures RoundConstant(22) == 0x5cb0a9dc && RoundConstant(23) == 0x76f988da
  {
  }

  lemma Constants24To31()
    ensures RoundConstant(24) == 0x983e5152 && RoundConstant(25) == 0xa831c66d
    ensures RoundConstant(26) == 0xb00327c8 && RoundConstant(27) == 0xbf597fc7
    ensures RoundConstant(28) == 0xc6e00bf3 && RoundConstant(29) == 0xd5a79147
    ensures RoundConstant(30) == 0x06ca6351 && RoundConstant(31) == 0x14292967
  {
  }

  lemma Constants32To39()
    ensures RoundConstant(32) == 0x27b70a85 && RoundConstant(33) == 0x2e1b2138
    ensures RoundConstant(34) == 0x4d2c6dfc && RoundConstant(35) == 0x53380d13
    ensures RoundConstant(36) == 0x650a7354 && RoundConstant(37) == 0x766a0abb
    ensures RoundConstant(38) == 0x81c2c92e && RoundConstant(39) == 0x92722c85
  {
  }

  lemma Constants40To47()
    ensures RoundConstant(40) == 0xa2bfe8a1 && RoundConstant(41) == 0xa81a664b
    ensures RoundConstant(42) == 0xc24b8b70 && RoundConstant(43) == 0xc76c51a3
    ensures RoundConstant(44) == 0xd192e819 && RoundConstant(45) == 0xd6990624
    ensures RoundConstant(46) == 0xf40e3585 && RoundConstant(47) == 0x106aa070
  {
  }

  lemma Constants48To55()
    ensures RoundConstant(48) == 0x19a4c116 && RoundConstant(49) == 0x1e376c08
    ensures RoundConstant(50) == 0x2748774c && RoundConstant(51) == 0x34b0bcb5
    ensures RoundConstant(52) == 0x391c0cb3 && RoundConstant(53) == 0x4ed8aa4a
    ensures RoundConstant(54) == 0x5b9cca4f && RoundConstant(55) == 0x682e6ff3
  {
  }

  lemma Constants56To63()
    ensures RoundConstant(56) == 0x748f82ee && RoundConstant(57) == 0x78a5636f
    ensures RoundConstant(58) == 0x84c87814 && RoundConstant(59) == 0x8cc70208
    ensures RoundConstant(60) == 0x90befffa && RoundConstant(61) == 0xa4506ceb
    ensures RoundConstant(62) == 0xbef9a3f7 && RoundConstant(63) == 0xc67178f2
  {
  }

  lemma AbcRounds0To7(m: Block, n: nat)
    requires IsAbc(m) && n == 0
    ensures State(m, n + 8)
      == Words8(0x85a07b5f, 0xe5030380, 0x2b4209f5, 0x04409a6a,
                0x0c657a79, 0x9b27a401, 0x714260ad, 0x43ada245)
  {
    hide State, Word, RoundConstant, IsAbc;
    Constants0To7();
    FirstState(m);
    AbcWords0To15(m);
    NextState(m, 0);
    assert State(m, 1).a == 0x5d6aebcd && State(m, 1).e == 0xfa2a4622;
    NextState(m, 1);
    assert State(m, 2).a == 0x5a6ad9ad && State(m, 2).e == 0x78ce7989;
    NextState(m, 2);
    assert State(m, 3).a == 0xc8c347a7 && State(m, 3).e == 0xf92939eb;
    NextState(m, 3);
    assert State(m, 4).a == 0xd550f666 && State(m, 4).e == 0x24e00850;
    NextState(m, 4);
    assert State(m, 5).a == 0x04409a6a && State(m, 5).e == 0x43ada245;
    NextState(m, 5);
    assert State(m, 6).a == 0x2b4209f5 && State(m, 6).e == 0x714260ad;
    NextState(m, 6);
    assert State(m, 7).a == 0xe5030380 && State(m, 7).e == 0x9b27a401;
    NextState(m, 7);
  }

  lemma AbcRounds8To15(m: Block, n: nat)
    requires IsAbc(m) && n == 8
    ensures State(m, n + 8)
      == Words8(0xb0fa238e, 0xc0645fde, 0xd932eb16, 0x87912990,
                0x07590dcd, 0x0b92f20c, 0x745a48de, 0x1e578218)
  {
    hide State, Word, RoundConstant, IsAbc;
    Constants8To15();
    AbcRounds0To7(m, 0);
    AbcWords0To15(m);
    NextState(m, 8);
    assert State(m, 9).a == 0x8e04ecb9 && State(m, 9).e == 0x32ca2d8c;
    NextState(m, 9);
    assert State(m, 10).a == 0x8c87346b && State(m, 10).e == 0x1cc92596;
    NextState(m, 10);
    assert State(m, 11).a == 0x4798a3f4 && State(m, 11).e == 0x436b23e8;
    NextState(m, 11);
    assert State(m, 12).a == 0xf71fc5a9 && State(m, 12).e == 0x816fd6e9;
    NextState(m, 12);
    assert State(m, 13).a == 0x87912990 && State(m, 13).e == 0x1e578218;
    NextState(m, 13);
    assert State(m, 14).a == 0xd932eb16 && State(m, 14).e == 0x745a48de;
    NextState(m, 14);
    assert State(m, 15).a == 0xc0645fde && State(m, 15).e == 0x0b92f20c;
    NextState(m, 15);
  }

  lemma AbcRounds16To23(m: Block, n: nat)
    requires IsAbc(m) && n == 16
    ensures State(m, n + 8)
      == Words8(0xc5d53d8d, 0xa7a3623f, 0xc2606d6d, 0x9dc68b63,
                0xaa47c347, 0x49f5114a, 0xe1257970, 0x8ada8930)
  {
    hide State, Word, RoundConstant, IsAbc;
    Constants16To23();
    AbcRounds8To15(m, 8);
    AbcWords16To23(m);
    NextState(m, 16);
    assert State(m, 17).a == 0x21da9a9b && State(m, 17).e == 0x8034229c;
    NextState(m, 17);
    assert State(m, 18).a == 0xc2fbd9d1 && State(m, 18).e == 0x846ee454;
    NextState(m, 18);
    assert State(m, 19).a == 0xfe777bbf && State(m, 19).e == 0xcc899961;
    NextState(m, 19);
    assert State(m, 20).a == 0xe1f20c33 && State(m, 20).e == 0xb0638179;
    NextState(m, 20);
    assert State(m, 21).a == 0x9dc68b63 && State(m, 21).e == 0x8ada8930;
    NextState(m, 21);
    assert State(m, 22).a == 0xc2606d6d && State(m, 22).e == 0xe1257970;
    NextState(m, 22);
    assert State(m, 23).a == 0xa7a3623f && State(m, 23).e == 0x49f5114a;
    NextState(m, 23);
  }

  lemma AbcRounds24To31(m: Block, n: nat)
    requires IsAbc(m) && n == 24
    ensures State(m, n + 8)
      == Words8(0x73b33bf5, 0xea992a22, 0xa0060b30, 0x363482c9,
                0xba591112, 0x0109ab3a, 0xade79437, 0x6112a3b7)
  {
    hide State, Word, RoundConstant, IsAbc;
    Constants24To31();
    AbcRounds16To23(m, 16);
    AbcWords24To31(m);
    NextState(m, 24);
    assert State(m, 25).a == 0x1c2c2838 && State(m, 25).e == 0x2823ef91;
    NextState(m, 25);
    assert State(m, 26).a == 0xcde8037d && State(m, 26).e == 0x14383d8e;
    NextState(m, 26);
    assert State(m, 27).a == 0xb62ec4bc && State(m, 27).e == 0xc74c6516;
    NextState(m, 27);
    assert State(m, 28).a == 0x77d37528 && State(m, 28).e == 0xedffbff8;
    NextState(m, 28);
    assert State(m, 29).a == 0x363482c9 && State(m, 29).e == 0x6112a3b7;
    NextState(m, 29);
    assert State(m, 30).a == 0xa0060b30 && State(m, 30).e == 0xade79437;
    NextState(m, 30);
    assert State(m, 31).a == 0xea992a22 && State(m, 31).e == 0x0109ab3a;
    NextState(m, 31);
  }

  lemma AbcRounds32To39(m: Block, n: nat)
    requires IsAbc(m) && n == 32
    ensures State(m, n + 8)
      == Words8(0x79ea687a, 0x6dc57a8a, 0x34df1604, 0x41a65cb1,
                0x1efbc0a0, 0xf0781bc8, 0xa507a53d, 0x0772a26b)
  {
    hide State, Word, RoundConstant, IsAbc;
    Constants32To39();
    AbcRounds24To31(m, 24);
    AbcWords32To39(m);
    NextState(m, 32);
    assert State(m, 33).a == 0x98e12507 && State(m, 33).e == 0x9cd9f5f6;
    NextState(m, 33);
    assert State(m, 34).a == 0xfe604df5 && State(m, 34).e == 0x59249dd3;
    NextState(m, 34);
    assert State(m, 35).a == 0xa9a7738c && State(m, 35).e == 0x085f3833;
    NextState(m, 35);
    assert State(m, 36).a == 0x65a0cfe4 && State(m, 36).e == 0xf4b002d6;
    NextState(m, 36);
    assert State(m, 37).a == 0x41a65cb1 && State(m, 37).e == 0x0772a26b;
    NextState(m, 37);
    assert State(m, 38).a == 0x34df1604 && State(m, 38).e == 0xa507a53d;
    NextState(m, 38);
    assert State(m, 39).a == 0x6dc57a8a && State(m, 39).e == 0xf0781bc8;
    NextState(m, 39);
  }

  lemma AbcRounds40To47(m: Block, n: nat)
    requires IsAbc(m) && n == 40
    ensures State(m, n + 8)
      == Words8(0x4172328d, 0xa14c14b0, 0x72ab4b91, 0x26628815,
                0xfecf0bc6, 0xd57b94a9, 0xb7755da1, 0xa80f11f0)
  {
    hide State, Word, RoundConstant, IsAbc;
    Constants40To47();
    AbcRounds32To39(m, 32);
    AbcWords40To47(m);
    NextState(m, 40);
    assert State(m, 41).a == 0xd6670766 && State(m, 41).e == 0x26352d63;
    NextState(m, 41);
    assert State(m, 42).a == 0xdf46652f && State(m, 42).e == 0x838b2711;
    NextState(m, 42);
    assert State(m, 43).a == 0x17aa0dfe && State(m, 43).e == 0xdecd4715;
    NextState(m, 43);
    assert State(m, 44).a == 0x9d4baf93 && State(m, 44).e == 0xfda24c2e;
    NextState(m, 44);
    assert State(m, 45).a == 0x26628815 && State(m, 45).e == 0xa80f11f0;
    NextState(m, 45);
    assert State(m, 46).a == 0x72ab4b91 && State(m, 46).e == 0xb7755da1;
    NextState(m, 46);
    assert State(m, 47).a == 0xa14c14b0 && State(m, 47).e == 0xd57b94a9;
    NextState(m, 47);
  }

  lemma AbcRounds48To55(m: Block, n: nat)
    requires IsAbc(m) && n == 48
    ensures State(m, n + 8)
      == Words8(0x38cc9913, 0x3ec45cdb, 0xf5702fdb, 0x101fd28f,
                0x54cb266b, 0xe50e1b4f, 0x9f4787c3, 0x529e7d00)
  {
    hide State, Word, RoundConstant, IsAbc;
    Constants48To55();
    AbcRounds40To47(m, 40);
    AbcWords48To55(m);
    NextState(m, 48);
    assert State(m, 49).a == 0x05757ceb && State(m, 49).e == 0xbd714038;
    NextState(m, 49);
    assert State(m, 50).a == 0xf11bfaa8 && State(m, 50).e == 0x6e5c390c;
    NextState(m, 50);
    assert State(m, 51).a == 0x7a0508a1 && State(m, 51).e == 0x52f1ccf7;
    NextState(m, 51);
    assert State(m, 52).a == 0x886e7a22 && State(m, 52).e == 0x49231c1e;
    NextState(m, 52);
    assert State(m, 53).a == 0x101fd28f && State(m, 53).e == 0x529e7d00;
    NextState(m, 53);
    assert State(m, 54).a == 0xf5702fdb && State(m, 54).e == 0x9f4787c3;
    NextState(m, 54);
    assert State(m, 55).a == 0x3ec45cdb && State(m, 55).e == 0xe50e1b4f;
    NextState(m, 55);
  }

  lemma AbcRounds56To63(m: Block, n: nat)
    requires IsAbc(m) && n == 56
    ensures State(m, n + 8)
      == Words8(0x506e3058, 0xd39a2165, 0x04d24d6c, 0xb85e2ce9,
                0x5ef50f24, 0xfb121210, 0x948d25b6, 0x961f4894)
  {
    hide State, Word, RoundConstant, IsAbc;
    Constants56To63();
    AbcRounds48To55(m, 48);
    AbcWords56To63(m);
    NextState(m, 56);
    assert State(m, 57).a == 0xfcd1887b && State(m, 57).e == 0x9b5e906c;
    NextState(m, 57);
    assert State(m, 58).a == 0xc062d46f && State(m, 58).e == 0x7e44008e;
    NextState(m, 58);
    assert State(m, 59).a == 0xffb70472 && State(m, 59).e == 0x6d83bfc6;
    NextState(m, 59);
    assert State(m, 60).a == 0xb6ae8fff && State(m, 60).e == 0xb21bad3d;
    NextState(m, 60);
    assert State(m, 61).a == 0xb85e2ce9 && State(m, 61).e == 0x961f4894;
    NextState(m, 61);
    assert State(m, 62).a == 0x04d24d6c && State(m, 62).e == 0x948d25b6;
    NextState(m, 62);
    assert State(m, 63).a == 0xd39a2165 && State(m, 63).e == 0xfb121210;
    NextState(m, 63);
  }

  /** The digest the repository's test expects for "abc". */
  lemma AbcDigest()
    ensures Hash(ABC)
      == [0xba, 0x78, 0x16, 0xbf, 0x8f, 0x01, 0xcf, 0xea]
      +  [0x41, 0x41, 0x40, 0xde, 0x5d, 0xae, 0x22, 0x23]
      +  [0xb0, 0x03, 0x61, 0xa3, 0x96, 0x17, 0x7a, 0x9c]
      +  [0xb4, 0x10, 0xff, 0x61, 0xf2, 0x00, 0x15, 0xad]
  {
    AbcChain();
    hide Chain;
  }

  lemma AbcChain()
    ensures Chain(Pad(ABC))
      == Words8(0xba7816bf, 0x8f01cfea, 0x414140de, 0x5dae2223,
                0xb00361a3, 0x96177a9c, 0xb410ff61, 0xf20015ad)
  {
    AbcPadding();
    IsAbcBlock();
    OneBlock(AbcBlock());
    AbcRounds56To63(AbcBlock(), 56);
    hide Pad, Chain, AbcBlock, Rounds, Schedule, IsAbc;
  }

  lemma IsAbcBlock()
    ensures IsAbc(AbcBlock())
  {
  }

  lemma OneBlock(m: Block)
    ensures Chain(m) == Compress(INITIAL, m)
  {
    hide Compress;
    ChainStep(m);
    assert m[..0] == [] && m[0..] == m;
  }
}
