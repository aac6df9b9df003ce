/** Fixed-width integers, byte strings and result types shared by every module. */
module Types {
  const TWO_32: int := 0x1_0000_0000
  const TWO_63: int := 0x8000_0000_0000_0000
  const TWO_64: int := 0x1_0000_0000_0000_0000

  type u8 = x: int | 0 <= x < 0x100
  type u16 = x: int | 0 <= x < 0x1_0000
  type u32 = x: int | 0 <= x < 0x1_0000_0000
  type u64 = x: int | 0 <= x < 0x1_0000_0000_0000_0000
  type i64 = x: int | -0x8000_0000_0000_0000 <= x < 0x8000_0000_0000_0000

  /** A byte vector. C++ strings are byte strings too, so text has this type as well. */
  type Bytes = seq<u8>

  datatype Option<+T> = None | Some(value: T)

  /** Why a decoder, a loader or a writer refused its input. */
  datatype Error =
    | CorruptInput
    | InvalidType
    | FieldCountOverflow
    | TrailingGarbage
    | LengthOverflow
    | LengthMismatch
    | LengthOutOfRange
    | ChecksumMismatch
    | BadMagic
    | UnsupportedVersion
    | UnknownMessage
    | CountOverflow
    | DuplicateId
    | BadDigestBlock
    | ReplayMismatch
    | InvalidHex

  datatype Result<+T> = Ok(value: T) | Err(error: Error) {
    predicate IsFailure() { Err? }

    function PropagateFailure<U>(): Result<U>
      requires Err?
    {
      Err(error)
    }

    function Extract(): T
      requires Ok?
    {
      value
    }
  }

  /** Byte literal of a text constant. */
  function Ascii(s: string): (b: Bytes)
    ensures |b| == |s|
  {
    seq(|s|, i requires 0 <= i < |s| => (s[i] as int) % 0x100)
  }
}
