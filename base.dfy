/** Shared vocabulary of the model: bytes, 64-bit integers and the ways a run of the tool ends early. */
module Base {

  /** One octet, Go's `byte`. */
  newtype Byte = b: int | 0 <= b < 256

  /** Go's `[]byte`, and also Go's `string`, which is an immutable byte string. */
  type Bytes = seq<Byte>

  const MinInt64: int := -0x8000_0000_0000_0000
  const MaxInt64: int := 0x7fff_ffff_ffff_ffff

  /** Go's `int64`, and Go's `int` on the 64-bit hosts the tool runs on. */
  type Int64 = x: int | MinInt64 <= x <= MaxInt64

  // ASCII codes of the bytes the tool looks at.
  const Tab: Byte := 9
  const Newline: Byte := 10
  const Space: Byte := 32
  const Plus: Byte := 43
  /** '-': a sign for strconv, and the separator of a maps address range. */
  const Minus: Byte := 45
  const Zero: Byte := 48
  const LowerR: Byte := 114

  datatype Option<+T> = None | Some(value: T)

  /** Why a run stops early. `IndexPanic` is Go's run-time panic on an index or
      slice out of range; every other kind is a `log.Fatal` call. */
  datatype Failure =
    | IndexPanic       // v[:5] on a short status line, f[1] on a maps line with fewer than two fields
    | ReadFailed       // ioutil.ReadDir / ioutil.ReadFile returned an error
    | OpenFailed       // os.Open of the process's mem file returned an error
    | BadAddressSpace  // the address field does not split into two tokens on '-'
    | BadNumber        // strconv reported a syntax or range error
    | NotFound         // no process with the requested name

  datatype Result<+T> = Ok(value: T) | Err(failure: Failure)
}
