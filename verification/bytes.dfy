/** Shared vocabulary of the DNS message codec: bytes, an optional value,
    and the fixed capacity of the program's message buffers. */
module Bytes {

  /** One octet of a C `unsigned char` / `char` buffer, as its value 0..255. */
  newtype byte = x: int | 0 <= x < 256

  /** Capacity of both the query buffer and the receive buffer (BUFFER_SIZE). */
  const BufferSize: nat := 512

  /** The label separator `.` */
  const Dot: byte := 0x2E

  datatype Option<+T> = None | Some(value: T)
}
