/** Types and measures that several parts of the system share. */
module Basics {

  datatype Option<T> = None | Some(value: T)

  type Byte = x: int | 0 <= x < 256

  /** Unsigned ints are taken modulo this. */
  const UINT: nat := 0x1_0000_0000

  const PGSIZE: nat := 4096

  /** How many pages sz bytes take: PGROUNDUP(sz) / PGSIZE. */
  function Pages(sz: nat): nat {
    (sz + PGSIZE - 1) / PGSIZE
  }

  function Min(a: nat, b: nat): nat {
    if a < b then a else b
  }
}
