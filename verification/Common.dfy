/** Types that several models share. */
module Common {
  datatype Option<+T> = None | Some(value: T)

  type u8 = x: nat | x < 0x100
  type u16 = x: nat | x < 0x1_0000
}
