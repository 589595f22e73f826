/** Small shared vocabulary: the C integer width used by the firmware,
    ESP-IDF's error codes, and an optional value. */
module Common {

  /** C `uint8_t`. */
  type uint8 = x: int | 0 <= x < 0x100

  /** Storing a non-negative C `int` into a `uint8_t` field keeps the low eight bits. */
  function TruncateToUint8(x: nat): (b: uint8)
    ensures x < 0x100 ==> b == x
    ensures (x - b) % 0x100 == 0
  {
    x % 0x100
  }

  /** The two `esp_err_t` values the modelled code returns. */
  datatype EspErr = EspOk | EspFail

  datatype Option<+T> = None | Some(value: T)
}
