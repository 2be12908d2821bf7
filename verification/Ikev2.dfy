/** Numbers of iked/ikev2.h, and the transform of iked/iked.h, that several modules use. */
module Ikev2 {
  import opened Bytes

  const PROTO_IKE: Byte := 1
  const PROTO_AH: Byte := 2
  const PROTO_ESP: Byte := 3

  const ENCR: Byte := 1
  const INTEGR: Byte := 3
  const DH: Byte := 4
  const ESN: Byte := 5

  const PAYLOAD_SK: Byte := 46
  const PAYLOAD_SKF: Byte := 53

  datatype Transform = Transform(kind: Byte, id: Word16, length: Word16)
}
