/** Small datatypes shared by the whole project. */
module Common {

  datatype Option<+T> = None | Some(value: T)

  datatype Result<+T, +E> = Ok(value: T) | Err(error: E)

  /** The largest unsigned 64-bit value. */
  const MAX_UINT64: nat := 0xFFFF_FFFF_FFFF_FFFF

  /** The largest signed 64-bit value. */
  const MAX_INT64: nat := 0x7FFF_FFFF_FFFF_FFFF

  /** No element of s occurs twice. */
  ghost predicate Distinct<T>(s: seq<T>) {
    forall i, j :: 0 <= i < j < |s| ==> s[i] != s[j]
  }
}
