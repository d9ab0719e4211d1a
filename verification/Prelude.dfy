/** Vocabulary shared by the component models. */
module Prelude {

  datatype Option<+T> = None | Some(value: T)

  const TWO_32 := 0x1_0000_0000
  const TWO_64 := 0x1_0000_0000_0000_0000

  /** Conversion of an integer to a C `int32_t` (also GLib's `gint`). */
  function ToInt32(x: int): (y: int)
    ensures -0x8000_0000 <= y < 0x8000_0000
    ensures (x - y) % TWO_32 == 0
    ensures -0x8000_0000 <= x < 0x8000_0000 ==> y == x
  {
    var m := x % TWO_32;
    if m < 0x8000_0000 then m else m - TWO_32
  }

  /** Conversion of an integer to a C `int64_t`. */
  function ToInt64(x: int): (y: int)
    ensures -0x8000_0000_0000_0000 <= y < 0x8000_0000_0000_0000
    ensures (x - y) % TWO_64 == 0
    ensures -0x8000_0000_0000_0000 <= x < 0x8000_0000_0000_0000 ==> y == x
  {
    var m := x % TWO_64;
    if m < 0x8000_0000_0000_0000 then m else m - TWO_64
  }

  function Max(x: int, y: int): int {
    if x > y then x else y
  }

  function Min(x: int, y: int): int {
    if x < y then x else y
  }
}
