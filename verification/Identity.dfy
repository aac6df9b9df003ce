/** 128-bit identities (include/servingobs/core/identity.hpp, src/core.cpp). */
module Identity {
  import opened Types
  import opened BigEndian
  import opened Ordering

  datatype Id128 = Id128(hi: u64, lo: u64) {
    predicate IsNull() { hi == 0 && lo == 0 }
  }

  const NULL_ID := Id128(0, 0)

  /** `operator<`: by high word, then low word. */
  predicate IdLess(a: Id128, b: Id128) {
    a.hi < b.hi || (a.hi == b.hi && a.lo < b.lo)
  }

  lemma IdLessTotal()
    ensures TotalOrder(IdLess)
  {
  }

  /** Identities are ordered as 128-bit numbers. */
  lemma IdLessIsNumeric(a: Id128, b: Id128)
    ensures IdLess(a, b) <==> a.hi * TWO_64 + a.lo < b.hi * TWO_64 + b.lo
  {
  }

  /** Deterministic 16-byte big-endian form. */
  function IdBytes(v: Id128): (b: Bytes)
    ensures |b| == 16
  {
    BE(v.hi, 8) + BE(v.lo, 8)
  }

  function IdOfBytes(b: Bytes): Id128
    requires |b| == 16
  {
    Pow256Values();
    Id128(Value(b[..8]), Value(b[8..]))
  }

  lemma IdBytesRoundTrip(v: Id128)
    ensures IdOfBytes(IdBytes(v)) == v
  {
    Pow256Values();
    ValueOfBE(v.hi, 8);
    ValueOfBE(v.lo, 8);
    assert IdBytes(v)[..8] == BE(v.hi, 8) && IdBytes(v)[8..] == BE(v.lo, 8);
  }

  // ------------------------------------------------------------ hexadecimal text

  function HexDigit(n: nat): (c: u8)
    requires n < 16
    ensures 48 <= c <= 57 || 97 <= c <= 102
  {
    if n < 10 then 48 + n else 87 + n
  }

  /** Two lower-case digits per byte. */
  function HexOf(b: Bytes): (h: Bytes)
    ensures |h| == 2 * |b|
    ensures forall i :: 0 <= i < |h| ==> IsLowerHex(h[i])
  {
    if b == [] then []
    else HexOf(b[..|b| - 1]) + [HexDigit(b[|b| - 1] / 16), HexDigit(b[|b| - 1] % 16)]
  }

  /** The two characters of byte `i` are its high and its low digit. */
  lemma {:induction false} HexOfAt(b: Bytes, i: nat)
    requires i < |b|
    ensures HexOf(b)[2 * i] as char == "0123456789abcdef"[b[i] / 16]
    ensures HexOf(b)[2 * i + 1] as char == "0123456789abcdef"[b[i] % 16]
    decreases |b|
  {
    var n := |b| - 1;
    if i < n { HexOfAt(b[..n], i); }
  }

  predicate IsLowerHex(c: u8) {
    48 <= c <= 57 || 97 <= c <= 102
  }

  function IdHex(v: Id128): (h: Bytes)
    ensures |h| == 32
  {
    HexOf(IdBytes(v))
  }

  predicate IsSpace(c: u8) { c == 32 || c == 9 || c == 13 || c == 10 }

  function TrimLeft(s: Bytes): Bytes {
    if s != [] && IsSpace(s[0]) then TrimLeft(s[1..]) else s
  }

  function TrimRight(s: Bytes): Bytes {
    if s != [] && IsSpace(s[|s| - 1]) then TrimRight(s[..|s| - 1]) else s
  }

  function StripPrefix(s: Bytes): Bytes {
    if |s| >= 2 && s[0] == 48 && (s[1] == 120 || s[1] == 88) then s[2..] else s
  }

  /** Grouping characters are dropped, upper case is folded, anything else is an error. */
  function Clean(s: Bytes): (r: Result<Bytes>)
    ensures r.Ok? ==> forall i :: 0 <= i < |r.value| ==> IsLowerHex(r.value[i])
  {
    if s == [] then Ok([])
    else
      var rest :- Clean(s[..|s| - 1]);
      var c := s[|s| - 1];
      if c == 45 || c == 58 || c == 95 || c == 32 then Ok(rest)
      else if IsLowerHex(c) then Ok(rest + [c])
      else if 65 <= c <= 70 then Ok(rest + [c + 32])
      else Err(InvalidHex)
  }

  function Nibble(c: u8): (n: nat)
    requires IsLowerHex(c)
    ensures n < 16
  {
    if c <= 57 then c - 48 else c - 87
  }

  function HexValue(h: Bytes): nat
    requires forall i :: 0 <= i < |h| ==> IsLowerHex(h[i])
  {
    if h == [] then 0 else 16 * HexValue(h[..|h| - 1]) + Nibble(h[|h| - 1])
  }

  lemma {:induction false} HexValueBound(h: Bytes, n: nat)
    requires |h| == 2 * n && forall i :: 0 <= i < |h| ==> IsLowerHex(h[i])
    ensures HexValue(h) < Pow256(n)
  {
    if n > 0 {
      var k := |h| - 2;
      HexValueBound(h[..k], n - 1);
      assert h[..k + 1][..k] == h[..k];
      assert HexValue(h) == 16 * HexValue(h[..k + 1]) + Nibble(h[k + 1]);
      assert HexValue(h[..k + 1]) == 16 * HexValue(h[..k]) + Nibble(h[k]);
    }
  }

  /** `Id128::parse`: trim, drop an 0x prefix and grouping, demand 32 digits. */
  function ParseId(s: Bytes): Result<Id128> {
    var digits :- Clean(StripPrefix(TrimRight(TrimLeft(s))));
    if |digits| != 32 then Err(InvalidHex)
    else
      HexValueBound(digits[..16], 8);
      HexValueBound(digits[16..], 8);
      Pow256Values();
      Ok(Id128(HexValue(digits[..16]), HexValue(digits[16..])))
  }

  lemma {:induction false} CleanKeepsHex(h: Bytes)
    requires forall i :: 0 <= i < |h| ==> IsLowerHex(h[i])
    ensures Clean(h) == Ok(h)
  {
    if h != [] {
      CleanKeepsHex(h[..|h| - 1]);
      assert h == h[..|h| - 1] + [h[|h| - 1]];
    }
  }

  lemma {:induction false} HexValueOfBytes(b: Bytes)
    ensures HexValue(HexOf(b)) == Value(b)
  {
    if b != [] {
      var n := |b| - 1;
      var h := HexOf(b);
      HexValueOfBytes(b[..n]);
      assert h[..2 * n + 1][..2 * n] == HexOf(b[..n]);
      assert HexValue(h) == 16 * HexValue(h[..2 * n + 1]) + Nibble(h[2 * n + 1]);
      assert HexValue(h[..2 * n + 1]) == 16 * HexValue(HexOf(b[..n])) + Nibble(h[2 * n]);
    }
  }

  lemma {:induction false} HexOfConcat(a: Bytes, b: Bytes)
    ensures HexOf(a + b) == HexOf(a) + HexOf(b)
    decreases |b|
  {
    if b == [] {
      assert a + b == a;
    } else {
      assert (a + b)[..|a + b| - 1] == a + b[..|b| - 1];
      HexOfConcat(a, b[..|b| - 1]);
    }
  }

  /** The canonical text of every identity parses back to it. */
  lemma HexRoundTrip(v: Id128)
    ensures ParseId(IdHex(v)) == Ok(v)
  {
    hide HexOf, HexValue, Clean, BE;
    var h := IdHex(v);
    assert IsLowerHex(h[0]) && IsLowerHex(h[1]) && IsLowerHex(h[31]);
    CleanKeepsHex(h);
    HexOfConcat(BE(v.hi, 8), BE(v.lo, 8));
    assert h[..16] == HexOf(BE(v.hi, 8)) && h[16..] == HexOf(BE(v.lo, 8));
    HexValueOfBytes(BE(v.hi, 8));
    HexValueOfBytes(BE(v.lo, 8));
    Pow256Values();
    ValueOfBE(v.hi, 8);
    ValueOfBE(v.lo, 8);
  }
}
