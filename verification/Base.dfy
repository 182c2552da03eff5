/** Types and status codes shared by every part of the model. */
module Base {

  type byte = x: int | 0 <= x < 256

  type Bytes = seq<byte>

  datatype Option<+T> = None | Some(value: T)

  // include/hermes/common/errors.h
  const HM_SUCCESS := 0
  const HM_FAIL := 0x000f_0001
  const HM_INVALID_PARAMETER := 0x000f_0002
  const HM_BUFFER_TOO_SMALL := 0x000f_0003

  const TWO_32 := 0x1_0000_0000

  type uint32 = x: int | 0 <= x < 0x1_0000_0000
}
