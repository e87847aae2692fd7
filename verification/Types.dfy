/** Types that several models share. */
module Types {
  type Octet = x: int | 0 <= x < 0x100

  datatype Option<T> = None | Some(value: T)
}
