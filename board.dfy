/** Board constants (components/Base/include/board_definition.h) and the
    few ESP-IDF types the core passes around. */
module Board {
  /** An unsigned byte, as `uint8_t`. */
  type uint8 = x: int | 0 <= x < 256

  /** The subset of `esp_err_t` values that the core produces or propagates. */
  datatype EspErr = Ok | InvalidArg | Timeout | InvalidCrc

  /** GPIO numbers of the two push buttons; their ids are what the button
      interrupts enqueue and what `callback_buttons` receives. */
  const ChangeButton: nat := 26
  const OffButton: nat := 27

  /** GPIO numbers of the two sensors. */
  const Dht11Sensor: nat := 14
  const LdrSensor: nat := 19

  /** Identifier of this device, carried in every published payload. */
  const DeviceId: int := 1

  /** Smallest accepted sampling delay in milliseconds: the DHT11 needs two
      seconds between consecutive reads. */
  const MinDelay: int := 2000
}
