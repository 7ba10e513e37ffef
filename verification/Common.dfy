// What several parts share.
module Common {
  type u8 = x: int | 0 <= x < 256

  // The payload room of a packet buffer.
  const BUFFER_SIZE: nat := 1500

  // Seconds after which connections and duplicate slots are forgotten.
  const CONN_TIMEOUT: int := 180
}
