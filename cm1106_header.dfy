/** Wire constants of the Cubic CM1106 UART protocol (src/cm1106_uart.h).
    The header holds the buffer capacity, the timeout, the ABC open/close
    flags and five literal request frames. The packet markers, the command
    codes and the working modes are macros of a newer header revision that
    is not part of this model; their values are stated here once. */
module Cm1106Header {

  /** An unsigned 8-bit value (`uint8_t`). */
  type byte = x: int | 0 <= x < 0x100

  /** A signed 16-bit value (`int16_t`). */
  type int16 = x: int | -0x8000 <= x < 0x8000

  /** Capacity of the message buffer `buf_msg`. */
  const LEN_BUF_MSG: nat := 20

  /** Timeout, in seconds, for every read from the sensor. */
  const TIMEOUT: int := 5

  /** Values of the ABC open/close flag. */
  const ABC_OPEN: byte := 0
  const ABC_CLOSE: byte := 2

  /** First byte of a frame: request, positive and negative acknowledgement. */
  const MSG_IP: byte := 0x11
  const MSG_ACK: byte := 0x16
  const MSG_NAK: byte := 0x06

  /** Command codes. */
  const CMD_GET_CO2: byte := 0x01
  const CMD_START_CALIBRATION: byte := 0x03
  const CMD_STORE_ABC_DATA: byte := 0x0E
  const CMD_GET_ABC: byte := 0x0F
  const CMD_SET_ABC: byte := 0x10
  const CMD_GET_SOFTWARE_VERSION: byte := 0x1E
  const CMD_GET_SERIAL_NUMBER: byte := 0x1F
  const CMD_MEASUREMENT_PERIOD: byte := 0x50
  const CMD_WORKING_STATUS: byte := 0x51

  /** Working modes accepted by `set_working_status`. */
  const SINGLE_MEASUREMENT: byte := 0x00
  const CONTINUOUS_MEASUREMENT: byte := 0x01

  /** Number of characters copied out of a software-version reply. */
  const LEN_SOFTVER: nat := 10

  /** Marker byte framing the ABC parameters of a set-ABC request. */
  const ABC_PAD: byte := 0x64

  /** Precomputed request frames and partial headers of the header file. */
  const CMD_GET_SERIAL_NUMBER_FRAME: seq<byte> := [0x11, 0x01, 0x1F, 0xCF]
  const CMD_GET_SOFTWARE_VERSION_FRAME: seq<byte> := [0x11, 0x01, 0x1E, 0xD0]
  const CMD_GET_CO2_FRAME: seq<byte> := [0x11, 0x01, 0x01, 0xED]
  const CMD_START_CALIBRATION_HEADER: seq<byte> := [0x11, 0x03, 0x03]
  const CMD_SET_ABC_HEADER: seq<byte> := [0x11, 0x07, 0x10]
}
