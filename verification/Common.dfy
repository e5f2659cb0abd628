/** Integer widths and the optional value shared by the other modules. */
module Common {
  const UINT32_VALUES: nat := 0x1_0000_0000
  const UINT64_VALUES: nat := 0x1_0000_0000_0000_0000

  datatype Option<+T> = None | Some(value: T)
}
