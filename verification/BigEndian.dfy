/** Big-endian numerals over bytes. */
module BigEndian {
  import opened Types

  function Pow256(n: nat): (p: nat)
    ensures p >= 1
  {
    if n == 0 then 1 else 256 * Pow256(n - 1)
  }

  /** The low `n` bytes of `v`, most significant first. */
  function BE(v: nat, n: nat): (b: Bytes)
    ensures |b| == n
  {
    if n == 0 then [] else BE(v / 256, n - 1) + [v % 256]
  }

  function Value(b: Bytes): (v: nat)
    ensures v < Pow256(|b|)
  {
    if b == [] then 0 else Value(b[..|b| - 1]) * 256 + b[|b| - 1]
  }

  lemma Pow256Values()
    ensures Pow256(1) == 0x100 && Pow256(2) == 0x1_0000 && Pow256(4) == 0x1_0000_0000
    ensures Pow256(8) == 0x1_0000_0000_0000_0000
  {
    assert Pow256(1) == 0x100;
    assert Pow256(2) == 0x1_0000;
    assert Pow256(3) == 0x100_0000;
    assert Pow256(4) == 0x1_0000_0000;
    assert Pow256(5) == 0x100_0000_0000;
    assert Pow256(6) == 0x1_0000_0000_0000;
    assert Pow256(7) == 0x100_0000_0000_0000;
  }

  lemma {:induction false} ValueOfBE(v: nat, n: nat)
    requires v < Pow256(n)
    ensures Value(BE(v, n)) == v
  {
    if n > 0 {
      ValueOfBE(v / 256, n - 1);
      assert BE(v, n)[..n - 1] == BE(v / 256, n - 1);
    }
  }

  lemma {:induction false} BEOfValue(b: Bytes)
    ensures BE(Value(b), |b|) == b
  {
    if b != [] {
      BEOfValue(b[..|b| - 1]);
      assert b == b[..|b| - 1] + [b[|b| - 1]];
    }
  }

  lemma BEInjective(v: nat, w: nat, n: nat)
    requires v < Pow256(n) && w < Pow256(n) && BE(v, n) == BE(w, n)
    ensures v == w
  {
    ValueOfBE(v, n);
    ValueOfBE(w, n);
  }

  /** The shift-and-mask byte lists pushed by the writer are the big-endian numerals. */
  lemma ShiftedBytes2(v: nat)
    ensures BE(v, 2) == [v / 0x100 % 256, v % 256]
  {
    assert BE(v / 256, 1) == BE(v / 256 / 256, 0) + [v / 256 % 256];
  }

  lemma ShiftedBytes4(v: nat)
    ensures BE(v, 4) == [v / 0x100_0000 % 256, v / 0x1_0000 % 256, v / 0x100 % 256, v % 256]
  {
    ShiftedBytes2(v / 0x1_0000);
    assert v / 256 / 256 == v / 0x1_0000;
    assert BE(v / 256, 3) == BE(v / 256 / 256, 2) + [v / 256 % 256];
  }

  lemma LowTwo(v: nat, n: nat)
    ensures BE(v, n + 2) == BE(v / 0x1_0000, n) + [v / 0x100 % 256, v % 256]
  {
    assert BE(v / 256, n + 1) == BE(v / 256 / 256, n) + [v / 256 % 256];
    assert v / 256 / 256 == v / 0x1_0000;
  }

  lemma LowFour(v: nat, n: nat)
    ensures BE(v, n + 4) == BE(v / 0x1_0000_0000, n)
                            + [v / 0x100_0000 % 256, v / 0x1_0000 % 256, v / 0x100 % 256, v % 256]
  {
    var u := v / 0x1_0000;
    LowTwo(v, n + 2);
    LowTwo(u, n);
    assert u / 0x1_0000 == v / 0x1_0000_0000 && u / 0x100 == v / 0x100_0000;
  }

  lemma Quotients(v: nat, w: nat)
    requires w == v / 0x1_0000_0000
    ensures w / 0x100_0000 == v / 0x100_0000_0000_0000
    ensures w / 0x1_0000 == v / 0x1_0000_0000_0000
    ensures w / 0x100 == v / 0x100_0000_0000
  {
  }

  lemma ShiftedBytes8(v: nat)
    ensures BE(v, 8) == [v / 0x100_0000_0000_0000 % 256, v / 0x1_0000_0000_0000 % 256,
                         v / 0x100_0000_0000 % 256, v / 0x1_0000_0000 % 256,
                         v / 0x100_0000 % 256, v / 0x1_0000 % 256, v / 0x100 % 256, v % 256]
  {
    var w := v / 0x1_0000_0000;
    LowFour(v, 4);
    ShiftedBytes4(w);
    Quotients(v, w);
  }
}
