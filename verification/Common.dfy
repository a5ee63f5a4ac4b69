/** Types that several modules share. */
module Common {
  type Word16 = w: int | 0 <= w < 0x1_0000

  type Port = Word16

  datatype Option<T> = None | Some(value: T)
}
