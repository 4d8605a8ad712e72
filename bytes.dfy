/** Octets as they travel over MQTT and HTTP. */
module Bytes {
  type byte = b: int | 0 <= b < 0x100
}
