/** Definitions that several modules share. */
module Basics {

  /** A value that may be missing. */
  datatype Option<+T> = None | Some(value: T)

  /** A 32-bit word. */
  type Word = w: nat | w < 0x1_0000_0000

  /** The number of a sector of the file system device. */
  type Sector = nat

  function Least(a: nat, b: nat): nat { if a < b then a else b }
}
