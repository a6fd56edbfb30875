/** What several modules share. */
module Basics {

  datatype Option<T> = None | Some(value: T)

  /** The range of the C type uint. */
  const UINT: nat := 0x1_0000_0000

  type Byte = x: int | 0 <= x < 256

  ghost predicate Distinct(s: seq<nat>)
  {
    forall i, j | 0 <= i < j < |s| :: s[i] != s[j]
  }
}
