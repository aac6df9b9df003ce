/** Streaming SHA-256 (include/servingobs/core/digest.hpp, src/core.cpp:91-169) against
    sections 4.1.2, 4.2.2, 5.1.1, 5.2.1, 5.3.3 and 6.2.2 of FIPS 180-4. */
module Sha256 {
  import opened Types
  import opened BigEndian

  // ------------------------------------------------------------ the standard

  datatype Words8 = Words8(a: bv32, b: bv32, c: bv32, d: bv32, e: bv32, f: bv32, g: bv32, h: bv32)

  const INITIAL: Words8 := Words8(0x6a09e667, 0xbb67ae85, 0x3c6ef372, 0xa54ff53a,
                                  0x510e527f, 0x9b05688c, 0x1f83d9ab, 0x5be0cd19)

  /** Eight round constants of the table. */
  function ConstantRow(r: nat): (row: seq<bv32>)
    requires r < 8
    ensures |row| == 8
  {
    match r
    case 0 => [0x428a2f98, 0x71374491, 0xb5c0fbcf, 0xe9b5dba5, 0x3956c25b, 0x59f111f1, 0x923f82a4, 0xab1c5ed5]
    case 1 => [0xd807aa98, 0x12835b01, 0x243185be, 0x550c7dc3, 0x72be5d74, 0x80deb1fe, 0x9bdc06a7, 0xc19bf174]
    case 2 => [0xe49b69c1, 0xefbe4786, 0x0fc19dc6, 0x240ca1cc, 0x2de92c6f, 0x4a7484aa, 0x5cb0a9dc, 0x76f988da]
    case 3 => [0x983e5152, 0xa831c66d, 0xb00327c8, 0xbf597fc7, 0xc6e00bf3, 0xd5a79147, 0x06ca6351, 0x14292967]
    case 4 => [0x27b70a85, 0x2e1b2138, 0x4d2c6dfc, 0x53380d13, 0x650a7354, 0x766a0abb, 0x81c2c92e, 0x92722c85]
    case 5 => [0xa2bfe8a1, 0xa81a664b, 0xc24b8b70, 0xc76c51a3, 0xd192e819, 0xd6990624, 0xf40e3585, 0x106aa070]
    case 6 => [0x19a4c116, 0x1e376c08, 0x2748774c, 0x34b0bcb5, 0x391c0cb3, 0x4ed8aa4a, 0x5b9cca4f, 0x682e6ff3]
    case 7 => [0x748f82ee, 0x78a5636f, 0x84c87814, 0x8cc70208, 0x90befffa, 0xa4506ceb, 0xbef9a3f7, 0xc67178f2]
  }

  function RoundConstant(t: nat): bv32
    requires t < 64
  {
    ConstantRow(t / 8)[t % 8]
  }

  function Rotr(x: bv32, n: bv6): bv32
    requires 0 < n < 32
  {
    (x >> n) | (x << (32 - n))
  }

  function Shr(x: bv32, n: bv6): bv32
    requires n < 32
  {
    x >> n
  }

  function Xor(x: bv32, y: bv32): bv32 { x ^ y }

  function SmallSigma0(x: bv32): bv32 { Xor(Xor(Rotr(x, 7), Rotr(x, 18)), Shr(x, 3)) }
  function SmallSigma1(x: bv32): bv32 { Xor(Xor(Rotr(x, 17), Rotr(x, 19)), Shr(x, 10)) }
  function BigSigma0(x: bv32): bv32 { Xor(Xor(Rotr(x, 2), Rotr(x, 13)), Rotr(x, 22)) }
  function BigSigma1(x: bv32): bv32 { Xor(Xor(Rotr(x, 6), Rotr(x, 11)), Rotr(x, 25)) }
  function Ch(x: bv32, y: bv32, z: bv32): bv32 { Xor(x & y, !x & z) }
  function Maj(x: bv32, y: bv32, z: bv32): bv32 { Xor(Xor(x & y, x & z), y & z) }

  function Add(x: bv32, y: bv32): bv32 { x + y }

  type Block = b: Bytes | |b| == 64 witness seq(64, _ => 0)

  /** Word `t` of a block, big-endian. */
  function WordOf(b0: u8, b1: u8, b2: u8, b3: u8): bv32 {
    ((b0 as bv32) << 24) | ((b1 as bv32) << 16) | ((b2 as bv32) << 8) | (b3 as bv32)
  }

  /** The first `n` words of the message schedule. */
  function Schedule(m: Block, n: nat): (w: seq<bv32>)
    requires n <= 64
    ensures |w| == n
  {
    if n == 0 then []
    else
      var w := Schedule(m, n - 1);
      var t := n - 1;
      if t < 16 then w + [WordOf(m[4 * t], m[4 * t + 1], m[4 * t + 2], m[4 * t + 3])]
      else w + [Add(Add(Add(SmallSigma1(w[t - 2]), w[t - 7]), SmallSigma0(w[t - 15])), w[t - 16])]
  }

  lemma ScheduleFirst(m: Block, t: nat)
    requires t < 16
    ensures Schedule(m, t + 1) == Schedule(m, t) + [WordOf(m[4 * t], m[4 * t + 1], m[4 * t + 2], m[4 * t + 3])]
    ensures Schedule(m, 0) == []
  {
  }

  lemma ScheduleLater(m: Block, t: nat)
    requires 16 <= t < 64
    ensures var w := Schedule(m, t);
            Schedule(m, t + 1) == w + [Add(Add(Add(SmallSigma1(w[t - 2]), w[t - 7]), SmallSigma0(w[t - 15])),
                w[t - 16])]
  {
  }

  function Round(v: Words8, k: bv32, w: bv32): Words8 {
    var t1 := Add(Add(Add(Add(v.h, BigSigma1(v.e)), Ch(v.e, v.f, v.g)), k), w);
    var t2 := Add(BigSigma0(v.a), Maj(v.a, v.b, v.c));
    Words8(Add(t1, t2), v.a, v.b, v.c, Add(v.d, t1), v.e, v.f, v.g)
  }

  function Rounds(v: Words8, w: seq<bv32>, n: nat): Words8
    requires n <= 64 && |w| == 64
  {
    if n == 0 then v else Round(Rounds(v, w, n - 1), RoundConstant(n - 1), w[n - 1])
  }

  function AddWords(x: Words8, y: Words8): Words8 {
    Words8(Add(x.a, y.a), Add(x.b, y.b), Add(x.c, y.c), Add(x.d, y.d),
           Add(x.e, y.e), Add(x.f, y.f), Add(x.g, y.g), Add(x.h, y.h))
  }

  function Compress(hash: Words8, m: Block): Words8 {
    AddWords(hash, Rounds(hash, Schedule(m, 64), 64))
  }

  /** The hash value after all blocks of a message whose length is a multiple of 64 bytes. */
  function Chain(m: Bytes): Words8
    requires |m| % 64 == 0
    decreases |m|
  {
    if m == [] then INITIAL else Compress(Chain(m[..|m| - 64]), m[|m| - 64..])
  }

  lemma ChainStep(m: Bytes)
    requires |m| >= 64 && |m| % 64 == 0
    ensures Chain(m) == Compress(Chain(m[..|m| - 64]), m[|m| - 64..])
  {
  }

  function ZeroBytes(n: nat): (z: Bytes)
    ensures |z| == n
  {
    seq(n, _ => 0)
  }

  /** Number of zero bytes between the 0x80 byte and the length. */
  function ZeroCount(n: nat): (k: nat)
    ensures k < 64 && (n + 1 + k) % 64 == 56
  {
    (55 - n) % 64
  }

  /** Padding with the length field the code writes: the bit length modulo 2^64. */
  function Pad(m: Bytes): (p: Bytes)
    ensures |p| % 64 == 0
  {
    assert (|m| + 1 + ZeroCount(|m|) + 8) % 64 == 0;
    hide ZeroCount, ZeroBytes, BE;
    m + [0x80] + ZeroBytes(ZeroCount(|m|)) + BE(8 * |m| % TWO_64, 8)
  }

  /** Padding as section 5.1.1 has it: one 1-bit, the fewest zero bits that bring the length to 448
      modulo 512, then the bit length in 64 bits. */
  ghost predicate IsPadding(m: Bytes, p: Bytes) {
    exists k: nat ::
      && Aligns(|m|, k)
      && (forall j: nat :: j < k ==> !Aligns(|m|, j))
      && p == m + [0x80] + ZeroBytes(k) + BE(8 * |m|, 8)
  }

  /** A 0x80 byte and `k` zero bytes bring `n` bytes to 448 bits modulo 512. */
  predicate Aligns(n: nat, k: nat) {
    8 * (n + 1 + k) % 512 == 448
  }

  lemma AlignsByBytes(n: nat, k: nat)
    ensures Aligns(n, k) <==> (n + 1 + k) % 64 == 56
  {
    EighthOfMod(n + 1 + k);
  }

  lemma FewestZeros(n: nat)
    ensures Aligns(n, ZeroCount(n)) && forall j: nat :: j < ZeroCount(n) ==> !Aligns(n, j)
  {
    AlignsByBytes(n, ZeroCount(n));
    forall j: nat | j < ZeroCount(n) ensures !Aligns(n, j) { AlignsByBytes(n, j); }
  }

  /** Messages below 2^61 bytes are padded as the standard says. */
  lemma PadIsStandard(m: Bytes)
    requires |m| < 0x2000_0000_0000_0000
    ensures IsPadding(m, Pad(m))
  {
    hide Aligns, BE;
    FewestZeros(|m|);
    assert 8 * |m| % TWO_64 == 8 * |m|;
  }

  lemma EighthOfMod(n: nat)
    ensures (8 * n) % 512 == 8 * (n % 64)
  {
    assert n == 64 * (n / 64) + n % 64;
    assert 8 * n == 512 * (n / 64) + 8 * (n % 64);
  }

  function Low(x: bv32): u8 {
    ((x & 0xFF) as bv8) as u8
  }

  function WordBytes(x: bv32): (b: Bytes)
    ensures |b| == 4
  {
    [Low(x >> 24), Low(x >> 16), Low(x >> 8), Low(x)]
  }

  function DigestBytes(v: Words8): (d: Bytes)
    ensures |d| == 32
  {
    WordBytes(v.a) + WordBytes(v.b) + WordBytes(v.c) + WordBytes(v.d)
    + WordBytes(v.e) + WordBytes(v.f) + WordBytes(v.g) + WordBytes(v.h)
  }

  /** The digest of a message. */
  function Hash(m: Bytes): (d: Bytes)
    ensures |d| == 32
  {
    DigestBytes(Chain(Pad(m)))
  }

  // ------------------------------------------------------------ the streaming hasher

  /** Fill level after `n` bytes: a full buffer is processed only when the next byte arrives. */
  function LazyFill(n: nat): (l: nat)
    ensures l <= 64 && l <= n && (n - l) % 64 == 0
  {
    if n == 0 then 0 else (n - 1) % 64 + 1
  }

  class Hasher {
    var h: Words8
    var totalLen: u64
    const buf: array<u8>
    var bufLen: nat
    /** Everything absorbed so far. */
    ghost var msg: Bytes

    /** The buffer holds the tail of the message and `h` the chained blocks before it. */
    ghost predicate Holds()
      reads this, buf
    {
      && buf.Length == 64
      && bufLen <= 64 && bufLen <= |msg| && (|msg| - bufLen) % 64 == 0
      && buf[..bufLen] == msg[|msg| - bufLen..]
      && h == Chain(msg[..|msg| - bufLen])
    }

    ghost predicate Valid()
      reads this, buf
    {
      Holds() && bufLen == LazyFill(|msg|) && totalLen == |msg| % TWO_64
    }

    constructor ()
      ensures Valid() && msg == [] && fresh(buf)
    {
      h := INITIAL;
      totalLen, bufLen, msg := 0, 0, [];
      buf := new u8[64];
    }

    /** The message schedule of the buffered block. */
    method Expand() returns (w: array<bv32>)
      requires buf.Length == 64
      ensures fresh(w) && w.Length == 64 && w[..] == Schedule(buf[..], 64)
    {
      hide SmallSigma0, SmallSigma1, Add, WordOf, Schedule;
      ghost var m: Block := buf[..];
      w := new bv32[64];
      for t := 0 to 16
        invariant w[..t] == Schedule(m, t)
      {
        ScheduleFirst(m, t);
        w[t] := WordOf(buf[t * 4], buf[t * 4 + 1], buf[t * 4 + 2], buf[t * 4 + 3]);
        assert w[..t + 1] == w[..t] + [w[t]];
      }
      for t := 16 to 64
        invariant w[..t] == Schedule(m, t)
      {
        ghost var before := w[..t];
        ScheduleLater(m, t);
        assert before[t - 2] == w[t - 2] && before[t - 7] == w[t - 7];
        assert before[t - 15] == w[t - 15] && before[t - 16] == w[t - 16];
        w[t] := Add(Add(Add(SmallSigma1(w[t - 2]), w[t - 7]), SmallSigma0(w[t - 15])), w[t - 16]);
        assert w[..t + 1] == before + [w[t]];
      }
      assert w[..] == w[..64];
    }

    /** One application of the compression function to the buffer. */
    method ProcessBlock()
      requires buf.Length == 64
      modifies this`h
      ensures h == Compress(old(h), buf[..])
    {
      hide Schedule, Round, RoundConstant, AddWords;
      var w := Expand();
      var v := h;
      for t := 0 to 64
        invariant w[..] == Schedule(buf[..], 64) && v == Rounds(h, w[..], t)
      {
        v := Round(v, RoundConstant(t), w[t]);
      }
      h := AddWords(h, v);
    }

    /** `memcpy` of a chunk that fits behind the buffered bytes. */
    method CopyIn(chunk: Bytes)
      requires Holds() && bufLen + |chunk| <= 64
      modifies this`bufLen, this`msg, buf
      ensures Holds() && msg == old(msg) + chunk && bufLen == old(bufLen) + |chunk|
    {
      hide Chain;
      ghost var head := buf[..bufLen];
      forall i | 0 <= i < |chunk| { buf[bufLen + i] := chunk[i]; }
      assert buf[..bufLen + |chunk|] == head + chunk;
      bufLen, msg := bufLen + |chunk|, msg + chunk;
      assert msg[..|msg| - bufLen] == old(msg)[..|old(msg)| - old(bufLen)];
      assert msg[|msg| - bufLen..] == old(msg)[|old(msg)| - old(bufLen)..] + chunk;
    }

    /** Compress a full buffer and start over. */
    method Flush()
      requires Holds() && bufLen == 64
      modifies this`h, this`bufLen
      ensures Holds() && bufLen == 0
    {
      hide Compress, Chain;
      assert buf[..] == buf[..64];
      ChainStep(msg);
      ProcessBlock();
      bufLen := 0;
      assert msg[..|msg|] == msg;
    }

    /** Makes room if the buffer is full, then takes as much as fits. */
    method Absorb(rest: Bytes) returns (take: nat)
      requires Holds() && bufLen == LazyFill(|msg|) && rest != []
      modifies this`h, this`bufLen, this`msg, buf
      ensures Holds() && bufLen == LazyFill(|msg|)
      ensures 0 < take <= |rest| && msg == old(msg) + rest[..take]
    {
      hide Chain, LazyFill;
      if bufLen == 64 { Flush(); }
      take := if 64 - bufLen < |rest| then 64 - bufLen else |rest|;
      ghost var n := |msg|;
      CopyIn(rest[..take]);
      assert |msg| == n + take;
      NextFill(n, bufLen, take);
    }

    /** Absorb any number of bytes; a full buffer is compressed lazily. */
    method Update(data: Bytes)
      requires Valid()
      modifies this, buf
      ensures Valid() && msg == old(msg) + data
    {
      hide Chain, LazyFill;
      totalLen := (totalLen + |data|) % TWO_64;
      ghost var m0 := msg;
      var p := 0;
      assert data[..0] == [] && msg + [] == msg;
      assert Holds();
      hide Holds;
      while p < |data|
        invariant p <= |data| && msg == m0 + data[..p]
        invariant totalLen == (|m0| + |data|) % TWO_64
        invariant Holds() && bufLen == LazyFill(|msg|)
      {
        var take := Absorb(data[p..]);
        assert data[p..][..take] == data[p..p + take];
        ExtendPrefix(m0, data, p, take);
        p := p + take;
      }
      assert data[..|data|] == data;
    }

    /** Pad, append the length and emit the digest. The zero-fill loop ends because each step
        moves the fill level one closer to 56 around the buffer. */
    method Finalize() returns (d: Bytes)
      requires Valid()
      modifies this, buf
      ensures d == Hash(old(msg))
    {
      hide Chain, BE, DigestBytes;
      ghost var m := msg;
      var bitLen := totalLen * 8 % TWO_64;
      Update([0x80]);
      ZeroFill(m);
      CopyIn(BE(bitLen, 8));
      BitLength(|m|);
      assert msg == Pad(m);
      Flush();
      assert msg[..|msg|] == msg;
      d := DigestBytes(h);
    }

    method ZeroFill(ghost m: Bytes)
      requires Valid() && msg == m + [0x80]
      modifies this, buf
      ensures Holds() && bufLen == 56 && msg == m + [0x80] + ZeroBytes(ZeroCount(|m|))
    {
      hide Chain;
      ghost var zeros := 0;
      assert m + [0x80] == m + [0x80] + ZeroBytes(0);
      while bufLen != 56
        invariant Valid() && zeros <= ZeroCount(|m|) && msg == m + [0x80] + ZeroBytes(zeros)
        decreases ZeroCount(|m|) - zeros
      {
        FillLevel(|m|, zeros);
        Update([0]);
        assert ZeroBytes(zeros) + [0] == ZeroBytes(zeros + 1);
        assert msg == m + [0x80] + ZeroBytes(zeros + 1);
        zeros := zeros + 1;
      }
      FillLevel(|m|, zeros);
    }
  }

  /** While filling with zeros, level 56 is reached exactly at the standard number of zeros. */
  lemma FillLevel(n: nat, zeros: nat)
    requires zeros <= ZeroCount(n)
    ensures LazyFill(n + 1 + zeros) == 56 <==> zeros == ZeroCount(n)
  {
  }

  lemma NextFill(n: nat, fill: nat, take: nat)
    requires take > 0 && fill <= n + take && fill <= 64 && fill >= take && (n + take - fill) % 64 == 0
    ensures fill == LazyFill(n + take)
  {
  }

  lemma ExtendPrefix(m: Bytes, data: Bytes, p: nat, take: nat)
    requires p + take <= |data|
    ensures m + data[..p] + data[p..p + take] == m + data[..p + take]
  {
    assert data[..p + take] == data[..p] + data[p..p + take];
  }

  lemma BitLength(n: nat)
    ensures n % TWO_64 * 8 % TWO_64 == 8 * n % TWO_64
  {
    assert n == TWO_64 * (n / TWO_64) + n % TWO_64;
    assert 8 * n == TWO_64 * (8 * (n / TWO_64)) + 8 * (n % TWO_64);
  }

  function Flatten(chunks: seq<Bytes>): Bytes {
    if chunks == [] then [] else Flatten(chunks[..|chunks| - 1]) + chunks[|chunks| - 1]
  }

  /** Any way of cutting a message into updates yields the digest of the whole message. */
  method HashChunks(chunks: seq<Bytes>) returns (d: Bytes)
    ensures d == Hash(Flatten(chunks))
  {
    hide Hash, Hasher.Valid;
    var s := new Hasher();
    for i := 0 to |chunks|
      invariant fresh(s) && fresh(s.buf) && s.Valid() && s.msg == Flatten(chunks[..i])
    {
      s.Update(chunks[i]);
      assert chunks[..i + 1][..i] == chunks[..i];
    }
    assert chunks[..|chunks|] == chunks;
    d := s.Finalize();
  }

  method HashBytes(m: Bytes) returns (d: Bytes)
    ensures d == Hash(m)
  {
    hide Hash, Hasher.Valid;
    var s := new Hasher();
    s.Update(m);
    assert [] + m == m;
    d := s.Finalize();
  }
}
