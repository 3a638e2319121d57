/** The literal frames of src/cm1106_uart.h checked against the framing
    rules of the protocol engine: each precomputed request is the frame
    `send_cmd` builds, and each partial header has the length field of the
    request it starts. */
module Cm1106HeaderFrames {
  import opened Cm1106Header
  import opened Cm1106Protocol

  /** The byte sum of a three-byte header. */
  lemma SumOfHeader(a: byte, b: byte, c: byte)
    ensures Sum([a, b, c]) == a + b + c
  {
    var s: seq<int> := [a, b, c];
    SumPrefixStep(s, 0);
    SumPrefixStep(s, 1);
    SumPrefixStep(s, 2);
    assert s[..0] == [] && s[..3] == s;
  }

  /** `cmd_get_serial_number`: 0xCF is the checksum of 0x11 0x01 0x1F. */
  lemma SerialNumberFrameChecksum()
    ensures CMD_GET_SERIAL_NUMBER_FRAME == Frame(MSG_IP, CMD_GET_SERIAL_NUMBER, [])
    ensures Sum(CMD_GET_SERIAL_NUMBER_FRAME) % 256 == 0
  {
    SumOfHeader(MSG_IP, 1, CMD_GET_SERIAL_NUMBER);
    assert Cs([MSG_IP, 1, CMD_GET_SERIAL_NUMBER]) == 0xCF;
    var f := Frame(MSG_IP, CMD_GET_SERIAL_NUMBER, []);
    assert f[..3] == [MSG_IP, 1, CMD_GET_SERIAL_NUMBER];
  }

  /** `cmd_get_software_version`: 0xD0 is the checksum of 0x11 0x01 0x1E. */
  lemma SoftwareVersionFrameChecksum()
    ensures CMD_GET_SOFTWARE_VERSION_FRAME == Frame(MSG_IP, CMD_GET_SOFTWARE_VERSION, [])
    ensures Sum(CMD_GET_SOFTWARE_VERSION_FRAME) % 256 == 0
  {
    SumOfHeader(MSG_IP, 1, CMD_GET_SOFTWARE_VERSION);
    assert Cs([MSG_IP, 1, CMD_GET_SOFTWARE_VERSION]) == 0xD0;
    var f := Frame(MSG_IP, CMD_GET_SOFTWARE_VERSION, []);
    assert f[..3] == [MSG_IP, 1, CMD_GET_SOFTWARE_VERSION];
  }

  /** `cmd_get_co2` is the frame `send_cmd(0x01)` builds. */
  lemma Co2FrameIsSendCmd()
    ensures CMD_GET_CO2_FRAME == Frame(MSG_IP, CMD_GET_CO2, [])
    ensures Sum(CMD_GET_CO2_FRAME) % 256 == 0
  {
    SumOfHeader(MSG_IP, 1, CMD_GET_CO2);
    assert Cs([MSG_IP, 1, CMD_GET_CO2]) == 0xED;
    var f := Frame(MSG_IP, CMD_GET_CO2, []);
    assert f[..3] == [MSG_IP, 1, CMD_GET_CO2];
  }

  /** `cmd_start_calibration` starts every 6-byte calibration request:
      its length byte 0x03 is 6 - 3. */
  lemma CalibrationHeaderMatches(payload: seq<byte>)
    requires |payload| == 2
    ensures Frame(MSG_IP, CMD_START_CALIBRATION, payload)[..3] == CMD_START_CALIBRATION_HEADER
    ensures |Frame(MSG_IP, CMD_START_CALIBRATION, payload)| == 6
  {
    var f := Frame(MSG_IP, CMD_START_CALIBRATION, payload);
    assert f[..3] == [f[0], f[1], f[2]];
  }

  /** `cmd_set_ABC` starts every 10-byte set-ABC request: its length byte
      0x07 is 10 - 3. */
  lemma SetAbcHeaderMatches(payload: seq<byte>)
    requires |payload| == 6
    ensures Frame(MSG_IP, CMD_SET_ABC, payload)[..3] == CMD_SET_ABC_HEADER
    ensures |Frame(MSG_IP, CMD_SET_ABC, payload)| == 10
  {
    var f := Frame(MSG_IP, CMD_SET_ABC, payload);
    assert f[..3] == [f[0], f[1], f[2]];
  }
}
