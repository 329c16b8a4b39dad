/** Machine-width types and small result types shared by every module. */
module Bytes {

  const TWO_32 := 0x1_0000_0000
  const TWO_64 := 0x1_0000_0000_0000_0000

  type byte = b: int | 0 <= b < 256
  type uint32 = v: int | 0 <= v < TWO_32
  type uint64 = v: int | 0 <= v < TWO_64

  datatype Option<+T> = None | Some(value: T)
}
