# CM1106 UART protocol engine in Dafny

This project models the protocol engine of the CM1106_UART library. The
library talks to a Cubic CM1106 NDIR CO2 sensor over a serial link. One
object owns a 20-byte message buffer `buf_msg`, and every command goes
through the same five steps:

1. build a request frame `0x11, size-3, cmd, payload..., checksum` in the buffer;
2. write it to the transport;
3. read the reply into the same buffer;
4. validate it: expected length, at least 4 bytes, checksum, length field, ACK of the same command;
5. decode a typed value: CO2, serial number, software version, ABC parameters, measurement period or working mode.

The checksum is the two's complement of the byte sum, truncated to
`uint8_t`, so every frame sums to 0 modulo 256.

Files:

- `cm1106_header.dfy` (module `Cm1106Header`): the `uint8_t`/`int16_t`
  ranges and the wire constants.
- `protocol.dfy` (module `Cm1106Protocol`): the rules as functions, with
  lemmas about them. These cover the checksum, the frame layout, the verdict
  on a received frame (`Classify`: ACK with payload, NAK with error code, or
  invalid), what one read delivers, big-endian 16-bit fields, the `int16_t`
  wrap-around, `%04d` formatting with its parser, the serial number and
  `strncpy`.
- `cm1106_uart.dfy` (module `Cm1106Uart`): the class `Cm1106`. It has the
  buffer as an `array<byte>` and one method per member function of the C++
  class. Each method is proved against the functions above.
- `header_frames.dfy` (module `Cm1106HeaderFrames`): the literal frames of
  the header checked against the framing rules.

The transport is modelled abstractly:

- The ghost field `written` is the log of frames handed to write/flush.
- Each command wrapper takes a `reply` parameter: the bytes the sensor sends
  back before the timeout. The empty sequence means nothing arrived and the
  read timed out.
- One read hands back at most `max_bytes` of the reply.
- The class invariant `Valid` holds after every method: each frame in
  `written` is a request of 4 to 20 bytes with marker 0x11, length field
  size-3 and byte sum 0 modulo 256.

Two values depend on how the code handles a failed exchange:

- `get_measurement_period` and `get_working_status` do not initialise their
  output parameters. On failure their methods therefore return the caller's
  prior values (`period0`, `smoothed0`, `mode0`) unchanged.
- `get_ABC` and `store_ABC_data` do not clear the buffer before reading. The
  request frame therefore stays in the buffer behind a short reply.

Values of markers and command codes, most of which `src/cm1106_uart.h` does not define:

- `MSG_IP` 0x11, `MSG_ACK` 0x16, `MSG_NAK` 0x06.
- GET_CO2 0x01, START_CALIBRATION 0x03, GET_ABC 0x0F, SET_ABC 0x10,
  GET_SOFTWARE_VERSION 0x1E, GET_SERIAL_NUMBER 0x1F. These follow the wire
  protocol and the header's literal frames.
- STORE_ABC_DATA 0x0E, MEASUREMENT_PERIOD 0x50, WORKING_STATUS 0x51 and the
  modes SINGLE_MEASUREMENT 0 and CONTINUOUS_MEASUREMENT 1. These are distinct
  values fixed in `Cm1106Header`. No proof depends on them beyond their being
  distinct bytes.
- The software-version length is 10 (`softver[11]` in the header).

Behaviour of the code that the model keeps as written:

- The serial number is five `%04d` groups. That is 20 digits, or more when a
  field is 10000 or above. It is not a 10-digit string.
- A read is a single `readBytes` call once data is available. It does not
  accumulate byte by byte.
- Getters that fail leave the outputs described above. They do not always
  reset them to zero.

## Model

| member | source | states |
|---|---|---|
| `Cm1106Protocol.Cs` | src/cm1106_uart.cpp:489 | the checksum byte completes the preceding bytes to a sum of 0 modulo 256 |
| `Cm1106Protocol.CsUnique` | src/cm1106_uart.cpp:485-489 | exactly one byte completes a prefix to sum 0 mod 256, so the checksum is fully determined by that property |
| `Cm1106Protocol.Checksum` | src/cm1106_uart.cpp:481-497 | `calculate_cs(nb)`: for nb >= 4 the first nb-1 bytes plus the result sum to 0 mod 256; for nb < 4 the result is 0 |
| `Cm1106Protocol.ChecksumReadsPrefix` | src/cm1106_uart.cpp:484-488 | the checksum of an nb-byte packet depends only on bytes 0 .. nb-2 |
| `Cm1106Protocol.Frame` | src/cm1106_uart.cpp:469-477 | a frame has size payload+4, byte0 the marker, byte1 = size-3, byte2 the command, the payload unchanged in bytes 3..size-2, the checksum last, and sums to 0 mod 256 |
| `Cm1106Protocol.FrameOfFields` | src/cm1106_uart.cpp:471-474 | a 4- to 20-byte sequence with length field size-3 and byte sum 0 mod 256 is the frame built from its own marker, command and payload |
| `Cm1106Protocol.IsRequest` | src/cm1106_uart.cpp:469-477 | the shape of every request `send_cmd_data` writes: 4 to 20 bytes, marker 0x11, length field size-3, byte sum 0 mod 256 |
| `Cm1106Protocol.RequestIff` | src/cm1106_uart.cpp:469-477 | the requests are exactly the frames built with marker 0x11 |
| `Cm1106Protocol.FrameInjective` | src/cm1106_uart.cpp:471-474 | marker, command and payload can be read back from a frame: equal frames have equal arguments |
| `Cm1106Protocol.Classify` | src/cm1106_uart.cpp:434-459 | an accepted response is an ACK of the asked command, at least 4 bytes, with length field nb-3, summing to 0 mod 256, whose payload is bytes 3..nb-2; conversely every frame passing the checksum, length-field, ACK and command checks is accepted with that payload; a NAK is a 4-byte zero-sum frame with length field 1 carrying its error code in byte 2 |
| `Cm1106Protocol.AckIffFrame` | src/cm1106_uart.cpp:434-443 | within 20 bytes, the frames accepted as an answer to cmd are exactly the ACK frames built for cmd around their own payload |
| `Cm1106Protocol.ClassifyLen` | src/cm1106_uart.cpp:420-430 | a received count other than the expected one is rejected as unexpected length whatever the buffer holds; otherwise the verdict is that of `valid_response` |
| `Cm1106Protocol.AckRoundTrip` | src/cm1106_uart.cpp:437-443 | an ACK frame built with the correct checksum is accepted and yields its payload unchanged |
| `Cm1106Protocol.NakRejected` | src/cm1106_uart.cpp:444-448 | a well-formed 4-byte NAK is classified as the sensor's error with its code, never as a valid response |
| `Cm1106Protocol.CorruptChecksumRejected` | src/cm1106_uart.cpp:438 | changing the checksum byte of an accepted response makes it rejected for checksum/length |
| `Cm1106Protocol.WrongCommandRejected` | src/cm1106_uart.cpp:440 | a response naming another command is not valid |
| `Cm1106Protocol.EchoRejected` | src/cm1106_uart.cpp:440-448 | a request frame (marker 0x11) read back is never taken for a response |
| `Cm1106Protocol.ReadCount` | src/cm1106_uart.cpp:388-416 | `serial_read_bytes` returns at most max_bytes and at most what arrived; 0 when max_bytes is 0 or the timeout is not positive; otherwise all of the reply or exactly max_bytes |
| `Cm1106Protocol.Received` | src/cm1106_uart.cpp:399-405 | the bytes a wrapper receives are a prefix of the sensor's reply no longer than the expected length |
| `Cm1106Protocol.Accepted` | src/cm1106_uart.cpp:57-60 | the read of len bytes followed by `valid_response_len(cmd, nb, len)` that every wrapper performs; characterised by `AcceptedIff` |
| `Cm1106Protocol.Overlay` | src/cm1106_uart.cpp:401 | `readBytes` into `buf_msg`: the received bytes replace the front of the buffer and the rest is kept |
| `Cm1106Protocol.Zeros` | src/cm1106_uart.cpp:56 | the buffer after `memset(buf_msg, 0, 20)`: 20 bytes, all zero |
| `Cm1106Protocol.AcceptedIff` | src/cm1106_uart.cpp:420-443 | a wrapper expecting len bytes accepts a reply iff it has at least len bytes and its first len bytes are a valid ACK of the command |
| `Cm1106Protocol.TimeoutRejected` | src/cm1106_uart.cpp:394-415 | when nothing arrives before the timeout no wrapper accepts, so outputs keep their defaults |
| `Cm1106Protocol.AckAccepted` | src/cm1106_uart.cpp:420-443 | the sensor's correct ACK of the expected length is received whole and accepted |
| `Cm1106Protocol.Word` | src/cm1106_uart.cpp:220 | `(hi << 8) + lo` is below 2^16 and its high and low bytes are hi and lo |
| `Cm1106Protocol.ToInt16` | src/cm1106_uart.cpp:110-121 | storing into `int16_t` yields the value in [-32768, 32767] congruent to the input modulo 2^16 |
| `Cm1106Protocol.ToInt16Range` | src/cm1106_uart.cpp:121 | a 16-bit field up to 32767 is kept; one from 32768 wraps to the negative value field - 65536 |
| `Cm1106Protocol.Hi` | src/cm1106_uart.cpp:137 | `(v & 0xFF00) >> 8`: times 256 plus the low byte it gives the 16-bit two's-complement pattern of v; `WordOfHiLo` and `HiLoOfWord` relate it to the getters |
| `Cm1106Protocol.Lo` | src/cm1106_uart.cpp:138 | `v & 0xFF`: a byte congruent to v modulo 256, negative v included |
| `Cm1106Protocol.WordOfHiLo` | src/cm1106_uart.cpp:137-138 | the big-endian bytes a setter writes for a non-negative value join back to that value, also through `int16_t` |
| `Cm1106Protocol.HiLoOfWord` | src/cm1106_uart.cpp:303 | splitting the `int16_t` a getter stores gives back the two received bytes, negative values included |
| `Cm1106Protocol.Decimal` | src/cm1106_uart.cpp:68 | the decimal digits of a number: non-empty, all digits, no leading zero above 9 |
| `Cm1106Protocol.ParseDecimalOfDecimal` | src/cm1106_uart.cpp:68 | the decimal digits read back as the number |
| `Cm1106Protocol.DecimalLength` | src/cm1106_uart.cpp:68 | a number has at most k digits iff it is below 10^k |
| `Cm1106Protocol.ParseDecimalLeadingZeros` | src/cm1106_uart.cpp:68 | the zero padding of `%04d` does not change the value |
| `Cm1106Protocol.Format04d` | src/cm1106_uart.cpp:68 | `%04d` produces only digit characters |
| `Cm1106Protocol.Format04dRoundTrip` | src/cm1106_uart.cpp:67-68 | `%04d` reads back as its number; it is 4 characters below 10000 and 5 from 10000 to 65535 |
| `Cm1106Protocol.Format04dOneDigit` | src/cm1106_uart.cpp:68 | a one-digit field prints as "000" and its digit |
| `Cm1106Protocol.Field` | src/cm1106_uart.cpp:67 | the i-th serial field `buf[3+2i] * 256 + buf[4+2i]` is below 2^16 |
| `Cm1106Protocol.SerialGroups` | src/cm1106_uart.cpp:65-70 | the string after k rounds of the loop: `%04d` of fields 0 .. k-1 concatenated; its shape is proved in `SerialGroupsShape` |
| `Cm1106Protocol.SerialNumber` | src/cm1106_uart.cpp:60-70 | the serial number built from an accepted 14-byte reply: all five rounds; its digits and groups are proved in `SerialNumberRoundTrip` |
| `Cm1106Protocol.SerialGroupsShape` | src/cm1106_uart.cpp:65-70 | after k loop rounds the string is 4k characters whose i-th group of four is `%04d` of field i (fields below 10000) |
| `Cm1106Protocol.SerialNumberRoundTrip` | src/cm1106_uart.cpp:65-70 | with all fields below 10000 the serial number is 20 digits and its i-th group of four parses back to field i |
| `Cm1106Protocol.SerialNumberExample` | src/cm1106_uart.cpp:65-70 | fields 1, 2, 3, 4, 5 give "00010002000300040005" |
| `Cm1106Protocol.CString` | src/cm1106_uart.cpp:98 | `strncpy` of at most max bytes: the copied characters are the source bytes, none is NUL, and copying stops early only at a NUL |
| `Cm1106Protocol.CStringUnique` | src/cm1106_uart.cpp:98 | those three properties determine the copied string: any string that satisfies them equals `CString` |
| `Cm1106Uart.Co2Decoding` | src/cm1106_uart.cpp:117-121 | the sensor's 8-byte CO2 ACK is accepted, its payload bytes 0-1 are the big-endian reading, and readings up to 32767 come back unchanged |
| `Cm1106Uart.MeasurementPeriodRoundTrip` | src/cm1106_uart.cpp:257-262 | a period accepted by the setter, echoed in a 7-byte ACK, is accepted and decoded by the getter to the same period and smoothing count |
| `Cm1106Uart.AbcRoundTrip` | src/cm1106_uart.cpp:167-175 | ABC parameters accepted by the setter, echoed in a 10-byte ACK, are accepted and decoded by `get_ABC` to the same flag, cycle and base |
| `Cm1106Uart.CalibrationOk` | src/cm1106_uart.cpp:134 | the range check of `start_calibration`: 400 to 1500 ppm inclusive |
| `Cm1106Uart.AbcOk` | src/cm1106_uart.cpp:167 | the checks of `set_ABC`: flag ABC_OPEN or ABC_CLOSE, cycle 1 to 7, base 400 to 1499 |
| `Cm1106Uart.PeriodOk` | src/cm1106_uart.cpp:257 | the range check of `set_measurement_period`: 1 to 600 |
| `Cm1106Uart.ModeOk` | src/cm1106_uart.cpp:319 | the check of `set_working_status`: single or continuous measurement |
| `Cm1106Uart.CalibrationBounds` | src/cm1106_uart.cpp:134 | 400 and 1500 ppm pass the local check; 399 and 1501 do not |
| `Cm1106Uart.Cm1106.Valid` | src/cm1106_uart.cpp:469-477 | the class invariant every method keeps: the buffer holds 20 bytes, and every frame written so far is an `IsRequest`, so no frame longer than the buffer is ever sent and each sums to 0 mod 256 |
| `Cm1106Uart.Cm1106.constructor` | src/cm1106_uart.cpp:37-40 | a new engine has a fresh 20-byte buffer, has written nothing and satisfies `Valid` |
| `Cm1106Uart.Cm1106.CalculateCs` | src/cm1106_uart.cpp:481-497 | the `uint8_t` accumulation loop returns the byte completing buf[0..nb-2] to sum 0 mod 256, 0 for nb < 4, equal to `Checksum` |
| `Cm1106Uart.Cm1106.ValidResponse` | src/cm1106_uart.cpp:434-459 | true iff nb >= 4, buf[nb-1] is the checksum, buf[1] = nb-3, buf[0] = ACK and buf[2] = cmd; equivalently `Classify` says Ack |
| `Cm1106Uart.Cm1106.ValidResponseLen` | src/cm1106_uart.cpp:420-430 | false whenever nb differs from len, whatever the buffer holds; a true verdict means the nb bytes sum to 0 mod 256 |
| `Cm1106Uart.Cm1106.SendCmdData` | src/cm1106_uart.cpp:469-477 | for 4 <= size <= 20 the first size bytes become the request frame around the payload already in buf[3..size-2], the rest is unchanged and exactly that frame is appended to the written log; otherwise nothing changes and nothing is written |
| `Cm1106Uart.Cm1106.SendCmd` | src/cm1106_uart.cpp:463-465 | writes the 4-byte request `0x11, 1, cmd, checksum` and leaves bytes 4.. of the buffer unchanged |
| `Cm1106Uart.Cm1106.SerialWriteBytes` | src/cm1106_uart.cpp:375-384 | the first size bytes of the buffer are appended to the written log; `Valid` still holds exactly when those bytes form a request |
| `Cm1106Uart.Cm1106.SerialReadBytes` | src/cm1106_uart.cpp:388-416 | returns `ReadCount` bytes, stores them at the front of the buffer and leaves the rest unchanged |
| `Cm1106Uart.Cm1106.ClearBuffer` | src/cm1106_uart.cpp:56 | `memset` leaves all 20 bytes zero |
| `Cm1106Uart.Cm1106.GetSerialNumber` | src/cm1106_uart.cpp:44-77 | sends the serial-number request; returns `SerialNumber` of the 14-byte reply when accepted, else the empty string |
| `Cm1106Uart.Cm1106.GetSoftwareVersion` | src/cm1106_uart.cpp:81-104 | sends the version request; returns up to 10 characters of the 15-byte reply's payload up to its first NUL when accepted, else the empty string |
| `Cm1106Uart.Cm1106.Strncpy` | src/cm1106_uart.cpp:98 | the copy loop returns `CString` of buf[start..start+count] |
| `Cm1106Uart.Cm1106.GetCo2` | src/cm1106_uart.cpp:108-127 | sends the CO2 request; returns the `int16_t` of reply bytes 3-4 big-endian when an 8-byte reply is accepted, else 0 |
| `Cm1106Uart.Cm1106.StartCalibration` | src/cm1106_uart.cpp:131-160 | outside [400,1500] returns false with no frame written and the buffer unchanged; inside sends the 6-byte frame with payload [hi, lo] of the target and returns whether a 4-byte ACK came back |
| `Cm1106Uart.Cm1106.SetAbc` | src/cm1106_uart.cpp:164-197 | a flag other than ABC_OPEN/ABC_CLOSE, a cycle outside [1,7] or a base outside [400,1499] returns false with no traffic and no change; otherwise sends the 10-byte frame `0x64, flag, cycle, hi, lo, 0x64` and returns whether a 4-byte ACK came back |
| `Cm1106Uart.Cm1106.GetAbc` | src/cm1106_uart.cpp:201-228 | sends the get-ABC request; on an accepted 10-byte reply returns flag = byte 4, cycle = byte 5, base = bytes 6-7 big-endian, else all zero; the buffer is not cleared before the read |
| `Cm1106Uart.Cm1106.StoreAbcData` | src/cm1106_uart.cpp:232-250 | sends the store-ABC request and returns whether a 4-byte ACK came back |
| `Cm1106Uart.Cm1106.SetMeasurementPeriod` | src/cm1106_uart.cpp:254-284 | a period outside [1,600] returns false with no traffic and no change; otherwise sends the 7-byte frame [hi, lo, smoothed] and returns whether a 4-byte ACK came back |
| `Cm1106Uart.Cm1106.GetMeasurementPeriod` | src/cm1106_uart.cpp:288-312 | sends the 4-byte period request; on an accepted 7-byte reply returns the `int16_t` of bytes 3-4 and byte 5, else the caller's values unchanged |
| `Cm1106Uart.Cm1106.SetWorkingStatus` | src/cm1106_uart.cpp:316-344 | a mode other than single/continuous returns false with no traffic and no change; otherwise sends the 5-byte frame [mode] and returns whether a 4-byte ACK came back |
| `Cm1106Uart.Cm1106.GetWorkingStatus` | src/cm1106_uart.cpp:348-371 | sends the 4-byte status request; on an accepted 5-byte reply returns byte 3, else the caller's value unchanged |
| `Cm1106HeaderFrames.SerialNumberFrameChecksum` | src/cm1106_uart.h:66 | `{0x11, 0x01, 0x1F, 0xCF}` is the frame the engine builds for command 0x1F and sums to 0 mod 256 |
| `Cm1106HeaderFrames.SoftwareVersionFrameChecksum` | src/cm1106_uart.h:67 | `{0x11, 0x01, 0x1E, 0xD0}` is the frame the engine builds for command 0x1E and sums to 0 mod 256 |
| `Cm1106HeaderFrames.Co2FrameIsSendCmd` | src/cm1106_uart.h:68 | `{0x11, 0x01, 0x01, 0xED}` is the frame `send_cmd(0x01)` builds and sums to 0 mod 256 |
| `Cm1106HeaderFrames.CalibrationHeaderMatches` | src/cm1106_uart.h:69 | `{0x11, 0x03, 0x03}` starts every 6-byte calibration request (0x03 = 6 - 3) |
| `Cm1106HeaderFrames.SetAbcHeaderMatches` | src/cm1106_uart.h:70 | `{0x11, 0x07, 0x10}` starts every 10-byte set-ABC request (0x07 = 10 - 3) |

## Left out

- Physical transport (`write`, `flush`, `available`, `readBytes`): replaced by the `written` log and the `reply` parameter.
- Wall-clock timeout (`time`, `difftime`): the polling loop is not modelled as elapsed time. A reply that is empty stands for "nothing arrived before the timeout", which gives 0 bytes.
- Logging: `CM1106_LOG` and `print_buffer` are presentation only. The debug and software-serial configuration macros are platform plumbing.
- `detect_commands` and `test_implemented` are diagnostic scans whose only output is logging. The commented-out `test_cmd` is dead code.
- The Arduino demo `examples/basic/main.cpp` is console I/O and not part of this model.
- The class declaration in the header has signatures that do not match the .cpp. Only its constants are modelled.
- The `NULL` guards on output pointers, and C string buffer sizes: outputs are returned values, strings are sequences of characters, and a NULL output is not representable.
- `Cm1106Uart.Cm1106.SerialReadBytes`: requires max_bytes <= 20, as every call site passes. A larger count would overrun `buf_msg`.
- `Cm1106Uart.Cm1106.GetSoftwareVersion`: when the first ten payload bytes hold no NUL, `strncpy` leaves the caller's buffer unterminated. The model returns those ten characters; what the caller then reads depends on its 11th byte.
- `Cm1106Uart.Cm1106.GetAbc`: the field types of `CM1106_ABC` are not in the files modelled. `base` is kept as the unsigned 16-bit value `(buf[6] << 8) | buf[7]`.
- The values of STORE_ABC_DATA, MEASUREMENT_PERIOD, WORKING_STATUS and the two working modes are not in the files modelled. They are fixed as distinct bytes in `Cm1106Header`.
