/** Fixed-width integers, result codes and identifiers shared by the kernel modules. */
module Base {
  type U8 = x: int | 0 <= x < 0x100
  type U16 = x: int | 0 <= x < 0x1_0000
  type U32 = x: int | 0 <= x < 0x1_0000_0000

  datatype Option<+T> = None | Some(value: T)

  /** OsResult_t, as far as the modelled functions return it. */
  datatype OsResult = Ok | Locked | Fail | Error | InvalidArgument | InvalidId | Restricted | CritError

  const ID_INVALID: U32 := 0xFFFF_FFFF

  /** Addition and subtraction of U32_t wrap around. */
  function Add32(x: U32, y: U32): U32 { (x + y) % 0x1_0000_0000 }
  function Sub32(x: U32, y: U32): U32 { (x - y) % 0x1_0000_0000 }

  /** The sequence without its i-th element. */
  function Without<T>(s: seq<T>, i: nat): seq<T>
    requires i < |s|
  {
    s[..i] + s[i + 1..]
  }

  /** The sequence with x in front of its k-th element, or at the end. */
  function Inserted<T>(s: seq<T>, k: nat, x: T): seq<T>
    requires k <= |s|
  {
    s[..k] + [x] + s[k..]
  }
}
