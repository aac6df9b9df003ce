/** The canonical binary codec (include/servingobs/core/binary_codec.hpp): what each read and
    write means, as functions on cursors, and the mutable writer and reader proved against them. */
module Wire {
  import opened Types
  import opened BigEndian
  import opened Identity

  /** Unread bytes of a reader and its sticky failure flag. */
  datatype Cursor = Cursor(rest: Bytes, failed: bool)

  datatype Read<+T> = Read(value: T, next: Cursor)

  ghost predicate IsSuffix(a: Bytes, b: Bytes) {
    |a| <= |b| && a == b[|b| - |a|..]
  }

  /** Never past the end, never backwards, never after a failure. */
  ghost predicate Advances(c: Cursor, d: Cursor) {
    IsSuffix(d.rest, c.rest) && (c.failed ==> d == c)
  }

  lemma AdvancesTransitive(c: Cursor, d: Cursor, e: Cursor)
    requires Advances(c, d) && Advances(d, e)
    ensures Advances(c, e)
  {
  }

  /** The same reader over a buffer extended by `s`. */
  function Extend(c: Cursor, s: Bytes): Cursor {
    Cursor(c.rest + s, c.failed)
  }

  function Fail(c: Cursor): (d: Cursor)
    ensures Advances(c, d)
  {
    Cursor(c.rest, true)
  }

  // ------------------------------------------------------------ integers

  function ReadByte(c: Cursor): (r: Read<u8>)
    ensures Advances(c, r.next)
  {
    if c.failed then Read(0, c)
    else if c.rest == [] then Read(0, Fail(c))
    else Read(c.rest[0], Cursor(c.rest[1..], false))
  }

  /** `n` single-byte reads accumulated most significant first. A failing byte contributes 0 and
      the bytes before it stay consumed. */
  function ReadUint(c: Cursor, n: nat): (r: Read<nat>)
    ensures Advances(c, r.next) && r.value < Pow256(n)
  {
    if n == 0 then Read(0, c)
    else
      var high := ReadUint(c, n - 1);
      var low := ReadByte(high.next);
      Read(high.value * 256 + low.value, low.next)
  }

  lemma {:induction false} ReadUintSucceeds(c: Cursor, n: nat)
    requires !c.failed && n <= |c.rest|
    ensures ReadUint(c, n) == Read(Value(c.rest[..n]), Cursor(c.rest[n..], false))
  {
    if n > 0 {
      ReadUintSucceeds(c, n - 1);
      assert c.rest[..n][..n - 1] == c.rest[..n - 1];
      assert c.rest[n - 1..][1..] == c.rest[n..];
    }
  }

  lemma ReadUintStep(c: Cursor, n: nat, high: Cursor)
    requires n > 0 && ReadUint(c, n - 1).next == high
    requires high.rest == []
    ensures ReadUint(c, n).next == Cursor([], true)
  {
  }

  /** A multi-byte read that runs out of input has consumed every byte that was left. */
  lemma {:induction false} ReadUintFails(c: Cursor, n: nat)
    requires !c.failed && |c.rest| < n
    ensures ReadUint(c, n).next == Cursor([], true)
  {
    if |c.rest| < n - 1 {
      ReadUintFails(c, n - 1);
    } else {
      ReadUintSucceeds(c, n - 1);
    }
    ReadUintStep(c, n, ReadUint(c, n - 1).next);
  }

  function ReadU16(c: Cursor): (r: Read<u16>)
    ensures Advances(c, r.next)
  {
    Pow256Values();
    var r := ReadUint(c, 2);
    Read(r.value, r.next)
  }

  function ReadU32(c: Cursor): (r: Read<u32>)
    ensures Advances(c, r.next)
  {
    Pow256Values();
    var r := ReadUint(c, 4);
    Read(r.value, r.next)
  }

  function ReadU64(c: Cursor): (r: Read<u64>)
    ensures Advances(c, r.next)
  {
    Pow256Values();
    var r := ReadUint(c, 8);
    Read(r.value, r.next)
  }

  /** Two's complement of a signed 64-bit value. */
  function ToUnsigned(i: i64): u64 {
    if i < 0 then i + TWO_64 else i
  }

  function ToSigned(u: u64): i64 {
    if u >= TWO_63 then u - TWO_64 else u
  }

  function ReadI64(c: Cursor): (r: Read<i64>)
    ensures Advances(c, r.next)
  {
    var r := ReadU64(c);
    Read(ToSigned(r.value), r.next)
  }

  function ReadBool(c: Cursor): (r: Read<bool>)
    ensures Advances(c, r.next)
  {
    var r := ReadByte(c);
    Read(r.value != 0, r.next)
  }

  /** IEEE 754 binary64: the exponent field of a NaN or an infinity is all ones. */
  predicate Finite(bits: u64) {
    bits / 0x10_0000_0000_0000 % 0x800 != 0x7FF
  }

  function ReadF64(c: Cursor): (r: Read<u64>)
    ensures Advances(c, r.next)
  {
    var r := ReadU64(c);
    if Finite(r.value) then r else Read(r.value, if r.next.failed then r.next else Fail(r.next))
  }

  // ------------------------------------------------------------ lengths, blobs, identities

  function ReadLength(c: Cursor): (r: Read<u32>)
    ensures Advances(c, r.next)
    ensures !r.next.failed ==> r.value <= |r.next.rest|
  {
    var r := ReadU32(c);
    if r.next.failed then Read(0, r.next)
    else if r.value > |r.next.rest| then Read(0, Fail(r.next))
    else r
  }

  /** All or nothing. */
  function ReadRaw(c: Cursor, n: nat): (r: Read<Bytes>)
    ensures Advances(c, r.next)
    ensures if c.failed || n > |c.rest| then r.value == [] && r.next == Cursor(c.rest, true)
            else |r.value| == n && c.rest == r.value + r.next.rest && !r.next.failed
  {
    if c.failed then Read([], c)
    else if n > |c.rest| then Read([], Fail(c))
    else Read(c.rest[..n], Cursor(c.rest[n..], false))
  }

  /** Length-prefixed bytes; strings and byte arrays share this form. */
  function ReadBlob(c: Cursor): (r: Read<Bytes>)
    ensures Advances(c, r.next)
  {
    var len := ReadLength(c);
    if len.next.failed then Read([], len.next)
    else Read(len.next.rest[..len.value], Cursor(len.next.rest[len.value..], false))
  }

  function ReadId(c: Cursor): (r: Read<Id128>)
    ensures Advances(c, r.next)
  {
    if c.failed then Read(NULL_ID, c)
    else if |c.rest| < 16 then Read(NULL_ID, Fail(c))
    else
      var hi := ReadU64(c);
      var lo := ReadU64(hi.next);
      Read(Id128(hi.value, lo.value), lo.next)
  }

  /** Length prefix and content. */
  function Blob(b: Bytes): (r: Bytes)
    ensures |r| == 4 + |b|
  {
    BE(|b|, 4) + b
  }

  // ------------------------------------------------------------ decode after encode

  lemma ByteBack(v: u8, s: Bytes)
    ensures ReadByte(Cursor([v] + s, false)) == Read(v, Cursor(s, false))
  {
    assert ([v] + s)[1..] == s;
  }

  lemma UintBack(v: nat, n: nat, s: Bytes)
    requires v < Pow256(n)
    ensures ReadUint(Cursor(BE(v, n) + s, false), n) == Read(v, Cursor(s, false))
  {
    ReadUintSucceeds(Cursor(BE(v, n) + s, false), n);
    assert (BE(v, n) + s)[..n] == BE(v, n) && (BE(v, n) + s)[n..] == s;
    ValueOfBE(v, n);
  }

  lemma U16Back(v: u16, s: Bytes)
    ensures ReadU16(Cursor(BE(v, 2) + s, false)) == Read(v, Cursor(s, false))
  {
    Pow256Values();
    UintBack(v, 2, s);
  }

  lemma U32Back(v: u32, s: Bytes)
    ensures ReadU32(Cursor(BE(v, 4) + s, false)) == Read(v, Cursor(s, false))
  {
    Pow256Values();
    UintBack(v, 4, s);
  }

  lemma U64Back(v: u64, s: Bytes)
    ensures ReadU64(Cursor(BE(v, 8) + s, false)) == Read(v, Cursor(s, false))
  {
    Pow256Values();
    UintBack(v, 8, s);
  }

  lemma I64Back(i: i64, s: Bytes)
    ensures ReadI64(Cursor(BE(ToUnsigned(i), 8) + s, false)) == Read(i, Cursor(s, false))
  {
    U64Back(ToUnsigned(i), s);
  }

  lemma F64Back(bits: u64, s: Bytes)
    ensures ReadF64(Cursor(BE(bits, 8) + s, false)) == Read(bits, Cursor(s, !Finite(bits)))
  {
    U64Back(bits, s);
  }

  lemma BlobBack(b: Bytes, s: Bytes)
    requires |b| < TWO_32
    ensures ReadBlob(Cursor(Blob(b) + s, false)) == Read(b, Cursor(s, false))
  {
    assert Blob(b) + s == BE(|b|, 4) + (b + s);
    U32Back(|b|, b + s);
    assert (b + s)[..|b|] == b && (b + s)[|b|..] == s;
  }

  lemma IdBack(v: Id128, s: Bytes)
    ensures ReadId(Cursor(IdBytes(v) + s, false)) == Read(v, Cursor(s, false))
  {
    assert IdBytes(v) + s == BE(v.hi, 8) + (BE(v.lo, 8) + s);
    U64Back(v.hi, BE(v.lo, 8) + s);
    U64Back(v.lo, s);
  }

  // ------------------------------------------------------------ a successful read ignores what follows

  lemma ByteExtends(c: Cursor, s: Bytes)
    requires !ReadByte(c).next.failed
    ensures ReadByte(Extend(c, s)) == Read(ReadByte(c).value, Extend(ReadByte(c).next, s))
  {
    assert (c.rest + s)[1..] == c.rest[1..] + s;
  }

  lemma UintSuccessMeansEnough(c: Cursor, n: nat)
    requires !ReadUint(c, n).next.failed
    ensures !c.failed && n <= |c.rest|
  {
    if !c.failed && |c.rest| < n {
      ReadUintFails(c, n);
    }
  }

  lemma UintExtends(c: Cursor, n: nat, s: Bytes)
    requires !ReadUint(c, n).next.failed
    ensures ReadUint(Extend(c, s), n) == Read(ReadUint(c, n).value, Extend(ReadUint(c, n).next, s))
  {
    UintSuccessMeansEnough(c, n);
    ReadUintSucceeds(c, n);
    ReadUintSucceeds(Cursor(c.rest + s, false), n);
    assert (c.rest + s)[..n] == c.rest[..n] && (c.rest + s)[n..] == c.rest[n..] + s;
  }

  lemma F64Extends(c: Cursor, s: Bytes)
    requires !ReadF64(c).next.failed
    ensures ReadF64(Extend(c, s)) == Read(ReadF64(c).value, Extend(ReadF64(c).next, s))
  {
    UintExtends(c, 8, s);
  }

  lemma LengthExtends(c: Cursor, s: Bytes)
    requires !ReadLength(c).next.failed
    ensures ReadLength(Extend(c, s)) == Read(ReadLength(c).value, Extend(ReadLength(c).next, s))
  {
    UintExtends(c, 4, s);
  }

  lemma BlobExtends(c: Cursor, s: Bytes)
    requires !ReadBlob(c).next.failed
    ensures ReadBlob(Extend(c, s)) == Read(ReadBlob(c).value, Extend(ReadBlob(c).next, s))
  {
    LengthExtends(c, s);
    var len := ReadLength(c);
    var t, n := len.next.rest, len.value;
    assert (t + s)[..n] == t[..n] && (t + s)[n..] == t[n..] + s;
  }

  lemma IdExtends(c: Cursor, s: Bytes)
    requires !ReadId(c).next.failed
    ensures ReadId(Extend(c, s)) == Read(ReadId(c).value, Extend(ReadId(c).next, s))
  {
    var hi := ReadU64(c);
    ReadUintSucceeds(c, 8);
    UintExtends(c, 8, s);
    UintExtends(hi.next, 8, s);
  }

  // ------------------------------------------------------------ the writer

  class BinaryWriter {
    var buf: Bytes

    constructor ()
      ensures buf == []
    {
      buf := [];
    }

    method WriteU8(v: u8)
      modifies this
      ensures buf == old(buf) + [v]
    {
      buf := buf + [v];
    }

    method WriteU16(v: u16)
      modifies this
      ensures buf == old(buf) + BE(v, 2)
    {
      WriteU8(v / 0x100 % 256);
      WriteU8(v % 256);
      ShiftedBytes2(v);
    }

    method WriteU32(v: u32)
      modifies this
      ensures buf == old(buf) + BE(v, 4)
    {
      WriteU8(v / 0x100_0000 % 256);
      WriteU8(v / 0x1_0000 % 256);
      WriteU8(v / 0x100 % 256);
      WriteU8(v % 256);
      ShiftedBytes4(v);
    }

    method WriteU64(v: u64)
      modifies this
      ensures buf == old(buf) + BE(v, 8)
    {
      WriteU8(v / 0x100_0000_0000_0000 % 256);
      WriteU8(v / 0x1_0000_0000_0000 % 256);
      WriteU8(v / 0x100_0000_0000 % 256);
      WriteU8(v / 0x1_0000_0000 % 256);
      WriteU8(v / 0x100_0000 % 256);
      WriteU8(v / 0x1_0000 % 256);
      WriteU8(v / 0x100 % 256);
      WriteU8(v % 256);
      ShiftedBytes8(v);
    }

    method WriteI64(v: i64)
      modifies this
      ensures buf == old(buf) + BE(ToUnsigned(v), 8)
    {
      WriteU64(ToUnsigned(v));
    }

    method WriteBool(v: bool)
      modifies this
      ensures buf == old(buf) + [if v then 1 else 0]
    {
      WriteU8(if v then 1 else 0);
    }

    method Append(b: Bytes)
      modifies this
      ensures buf == old(buf) + b
    {
      buf := buf + b;
    }

    /** Throws, leaving the buffer alone, when the length does not fit its 32-bit prefix. */
    method WriteBlob(b: Bytes) returns (r: Result<()>)
      modifies this
      ensures r.Ok? <==> |b| < TWO_32
      ensures buf == if r.Ok? then old(buf) + Blob(b) else old(buf)
    {
      if |b| >= TWO_32 { return Err(LengthOverflow); }
      WriteU32(|b|);
      Append(b);
      return Ok(());
    }

    method WriteId(v: Id128)
      modifies this
      ensures buf == old(buf) + IdBytes(v)
    {
      Append(IdBytes(v));
    }

    method WriteCount(n: nat) returns (r: Result<()>)
      modifies this
      ensures r.Ok? <==> n < TWO_32
      ensures buf == if r.Ok? then old(buf) + BE(n, 4) else old(buf)
    {
      if n >= TWO_32 { return Err(LengthOverflow); }
      WriteU32(n);
      return Ok(());
    }
  }

  // ------------------------------------------------------------ the reader

  class BinaryReader {
    const data: Bytes
    var p: nat
    var failed: bool

    ghost predicate Valid()
      reads this
    {
      p <= |data|
    }

    ghost function View(): Cursor
      requires Valid()
      reads this
    {
      Cursor(data[p..], failed)
    }

    constructor (b: Bytes)
      ensures Valid() && View() == Cursor(b, false) && data == b
    {
      data, p, failed := b, 0, false;
    }

    predicate Good()
      reads this
    {
      !failed
    }

    predicate AtEnd()
      reads this
    {
      p == |data|
    }

    function Remaining(): nat
      requires Valid()
      reads this
    {
      |data| - p
    }

    method SetFailed()
      requires Valid()
      modifies this
      ensures Valid() && View() == Fail(old(View()))
    {
      failed := true;
    }

    /** True exactly when nothing failed and nothing is left; left-over bytes are a failure. */
    method RequireEnd() returns (done: bool)
      requires Valid()
      modifies this
      ensures Valid() && (done <==> old(View()) == Cursor([], false))
      ensures View() == if done || old(failed) then old(View()) else Fail(old(View()))
    {
      if failed { return false; }
      if !AtEnd() {
        SetFailed();
        return false;
      }
      return true;
    }

    method GetByte() returns (v: u8)
      requires Valid()
      modifies this
      ensures Valid() && Read(v, View()) == ReadByte(old(View()))
    {
      if failed { return 0; }
      if p == |data| {
        SetFailed();
        return 0;
      }
      v := data[p];
      p := p + 1;
    }

    method GetUint(n: nat) returns (v: nat)
      requires Valid()
      modifies this
      ensures Valid() && Read(v, View()) == ReadUint(old(View()), n)
    {
      v := 0;
      for i := 0 to n
        invariant Valid() && Read(v, View()) == ReadUint(old(View()), i)
      {
        var b := GetByte();
        v := v * 256 + b;
      }
    }

    method GetU16() returns (v: u16)
      requires Valid()
      modifies this
      ensures Valid() && Read(v, View()) == ReadU16(old(View()))
    {
      Pow256Values();
      v := GetUint(2);
    }

    method GetU32() returns (v: u32)
      requires Valid()
      modifies this
      ensures Valid() && Read(v, View()) == ReadU32(old(View()))
    {
      Pow256Values();
      v := GetUint(4);
    }

    method GetU64() returns (v: u64)
      requires Valid()
      modifies this
      ensures Valid() && Read(v, View()) == ReadU64(old(View()))
    {
      Pow256Values();
      v := GetUint(8);
    }

    method GetI64() returns (v: i64)
      requires Valid()
      modifies this
      ensures Valid() && Read(v, View()) == ReadI64(old(View()))
    {
      var u := GetU64();
      v := ToSigned(u);
    }

    method GetBool() returns (v: bool)
      requires Valid()
      modifies this
      ensures Valid() && Read(v, View()) == ReadBool(old(View()))
    {
      var b := GetByte();
      v := b != 0;
    }

    method GetF64() returns (v: u64)
      requires Valid()
      modifies this
      ensures Valid() && Read(v, View()) == ReadF64(old(View()))
    {
      v := GetU64();
      if !Finite(v) { SetFailed(); }
    }

    method GetLength() returns (n: u32)
      requires Valid()
      modifies this
      ensures Valid() && Read(n, View()) == ReadLength(old(View()))
    {
      n := GetU32();
      if failed { return 0; }
      if n > Remaining() {
        SetFailed();
        return 0;
      }
    }

    method GetRaw(n: nat) returns (b: Bytes)
      requires Valid()
      modifies this
      ensures Valid() && Read(b, View()) == ReadRaw(old(View()), n)
    {
      if failed { return []; }
      if n > Remaining() {
        SetFailed();
        return [];
      }
      b := data[p..p + n];
      assert data[p..][..n] == b && data[p..][n..] == data[p + n..];
      p := p + n;
    }

    method GetBlob() returns (b: Bytes)
      requires Valid()
      modifies this
      ensures Valid() && Read(b, View()) == ReadBlob(old(View()))
    {
      var n := GetLength();
      if failed { return []; }
      b := data[p..p + n];
      assert data[p..][..n] == b && data[p..][n..] == data[p + n..];
      p := p + n;
    }

    method GetId() returns (v: Id128)
      requires Valid()
      modifies this
      ensures Valid() && Read(v, View()) == ReadId(old(View()))
    {
      if failed { return NULL_ID; }
      if Remaining() < 16 {
        SetFailed();
        return NULL_ID;
      }
      var hi := GetU64();
      var lo := GetU64();
      v := Id128(hi, lo);
    }

    /** A nested reader over the next `n` bytes. */
    method Sub(n: nat) returns (r: BinaryReader)
      requires Valid()
      modifies this
      ensures Valid() && View() == ReadRaw(old(View()), n).next
      ensures r.Valid() && fresh(r) && r.View() == Cursor(ReadRaw(old(View()), n).value, false)
    {
      var b := GetRaw(n);
      r := new BinaryReader(b);
    }
  }
}
