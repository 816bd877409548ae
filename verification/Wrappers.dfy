/** Bytes, pages and the optional and fallible results shared by every module. */
module Wrappers {

  datatype Option<+T> = None | Some(value: T)

  type Byte = b: nat | b < 256

  const PAGE_SIZE: nat := 4096

  function Fill(n: nat, b: Byte): (r: seq<Byte>)
    ensures |r| == n && forall i :: 0 <= i < n ==> r[i] == b
  {
    seq(n, _ => b)
  }

  datatype Result<+T, +E> = Ok(value: T) | Err(error: E)

  function AlignUp(x: nat, alignment: nat): nat
    requires alignment > 0
  {
    (x + alignment - 1) / alignment * alignment
  }
}
