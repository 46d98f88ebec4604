/** What several modules share. */
module Common {
  datatype Option<T> = None | Some(value: T)

  /** The size of the local store of an SPE, in bytes. */
  const LS_SIZE := 0x40000

  /** A 64-bit address. */
  type Addr64 = a: int | 0 <= a < 0x1_0000_0000_0000_0000
}
