/** What all components share: an optional value and the machine word. */
module Wrappers {
  datatype Option<+T> = None | Some(value: T)

  type u32 = x: int | 0 <= x < 0x1_0000_0000
}
