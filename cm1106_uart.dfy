/** The CM1106_UART class of src/cm1106_uart.cpp: one connection to a
    sensor, with its 20-byte message buffer `buf_msg`. Every command wrapper
    builds a request in the buffer, writes it, reads the reply into the same
    buffer, validates it and decodes a typed value.

    The transport is abstract: `written` records each frame handed to
    write/flush, and the `reply` parameter of a wrapper is what the sensor
    sends back before the timeout (the empty sequence when nothing arrives). */
module Cm1106Uart {
  import opened Cm1106Header
  import opened Cm1106Protocol

  /** The ABC parameters `get_ABC` reports. */
  datatype Abc = Abc(openClose: byte, cycle: byte, base: nat)

  /** Argument ranges the setters check before any transport traffic. */
  predicate CalibrationOk(concentration: int16)
  {
    400 <= concentration <= 1500
  }

  predicate AbcOk(openClose: byte, cycle: byte, base: int16)
  {
    (openClose == ABC_OPEN || openClose == ABC_CLOSE) && 1 <= cycle <= 7 && 400 <= base <= 1499
  }

  predicate PeriodOk(period: int16)
  {
    1 <= period <= 600
  }

  predicate ModeOk(mode: byte)
  {
    mode == SINGLE_MEASUREMENT || mode == CONTINUOUS_MEASUREMENT
  }

  /** A CO2 reply accepted by `get_co2` decodes its first two payload
      bytes big-endian; a reading up to 32767 comes back unchanged. */
  lemma Co2Decoding(hi: byte, lo: byte, rest: seq<byte>)
    requires |rest| == 2
    ensures Accepted(CMD_GET_CO2, 8, Frame(MSG_ACK, CMD_GET_CO2, [hi, lo] + rest))
    ensures Frame(MSG_ACK, CMD_GET_CO2, [hi, lo] + rest)[3..5] == [hi, lo]
    ensures Word(hi, lo) < 0x8000 ==> ToInt16(Word(hi, lo)) == Word(hi, lo)
  {
    var f := Frame(MSG_ACK, CMD_GET_CO2, [hi, lo] + rest);
    AckAccepted(CMD_GET_CO2, [hi, lo] + rest);
    assert f[3..5] == f[3..7][..2];
    ToInt16Range(Word(hi, lo));
  }

  /** A period accepted by `set_measurement_period`, echoed by the sensor in
      a reply to `get_measurement_period`, is read back unchanged. */
  lemma MeasurementPeriodRoundTrip(period: int16, smoothed: byte)
    requires PeriodOk(period)
    ensures var f := Frame(MSG_ACK, CMD_MEASUREMENT_PERIOD, [Hi(period), Lo(period), smoothed]);
            Accepted(CMD_MEASUREMENT_PERIOD, 7, f)
            && ToInt16(Word(f[3], f[4])) == period && f[5] == smoothed
  {
    var p := [Hi(period), Lo(period), smoothed];
    var f := Frame(MSG_ACK, CMD_MEASUREMENT_PERIOD, p);
    AckAccepted(CMD_MEASUREMENT_PERIOD, p);
    assert f[3..6] == p;
    WordOfHiLo(period);
  }

  /** ABC parameters accepted by `set_ABC`, echoed by the sensor in the
      layout of the set request, are read back unchanged by `get_ABC`. */
  lemma AbcRoundTrip(openClose: byte, cycle: byte, base: int16)
    requires AbcOk(openClose, cycle, base)
    ensures var f := Frame(MSG_ACK, CMD_GET_ABC, [ABC_PAD, openClose, cycle, Hi(base), Lo(base), ABC_PAD]);
            Accepted(CMD_GET_ABC, 10, f)
            && f[4] == openClose && f[5] == cycle && Word(f[6], f[7]) == base
  {
    var p := [ABC_PAD, openClose, cycle, Hi(base), Lo(base), ABC_PAD];
    var f := Frame(MSG_ACK, CMD_GET_ABC, p);
    AckAccepted(CMD_GET_ABC, p);
    assert f[3..9] == p;
    WordOfHiLo(base);
  }

  /** The calibration range check is inclusive at both ends: the bounds
      400 and 1500 are accepted, and the values just outside them, 399 and
      1501, are rejected. */
  lemma CalibrationBounds()
    ensures CalibrationOk(400) && CalibrationOk(1500)
    ensures !CalibrationOk(399) && !CalibrationOk(1501)
  {
  }

  class Cm1106 {
    /** `buf_msg`. */
    var buf: array<byte>
    /** The frames written to the transport so far, oldest first. */
    ghost var written: seq<seq<byte>>

    /** The buffer has its fixed capacity, and every frame written so far
        is a well-formed request that fits it. */
    ghost predicate Valid()
      reads this
    {
      && buf.Length == LEN_BUF_MSG
      && forall f :: f in written ==> IsRequest(f)
    }

    constructor ()
      ensures Valid() && fresh(buf) && written == []
    {
      buf := new byte[LEN_BUF_MSG];
      written := [];
    }

    // -------------------------------------------------------------------
    // Protocol engine
    // -------------------------------------------------------------------

    /** `calculate_cs(nb)`: the byte that makes the first nb - 1 bytes of
        the buffer and itself sum to 0 modulo 256, or 0 when nb < 4. */
    method CalculateCs(nb: byte) returns (cs: byte)
      requires Valid() && nb <= LEN_BUF_MSG
      ensures nb >= 4 ==> (Sum(buf[..nb - 1]) + cs) % 256 == 0
      ensures nb < 4 ==> cs == 0
      ensures cs == Checksum(buf[..], nb)
    {
      cs := 0;
      if nb >= 4 {
        ghost var s := buf[..];
        SumPrefixStep(s, 0);
        SumPrefixStep(s, 1);
        SumPrefixStep(s, 2);
        assert s[..0] == [];
        var acc: byte := (buf[0] as int + buf[1] + buf[2]) % 256;
        var i := 3;
        while i < nb - 1
          invariant 3 <= i <= nb - 1
          invariant acc == Sum(s[..i]) % 256
        {
          SumPrefixStep(s, i);
          ModAddStep(Sum(s[..i]), buf[i]);
          acc := (acc + buf[i]) % 256;
          i := i + 1;
        }
        cs := (256 - acc % 256) % 256;
        assert s[..nb - 1] == buf[..nb - 1];
      }
    }

    /** `valid_response(cmd, nb)`: the first nb bytes of the buffer are an
        acknowledgement of cmd with a correct checksum and length field. */
    method ValidResponse(cmd: byte, nb: byte) returns (ok: bool)
      requires Valid() && nb <= LEN_BUF_MSG
      ensures ok <==> nb >= 4 && buf[nb - 1] == Checksum(buf[..], nb) && buf[1] == nb - 3
                      && buf[0] == MSG_ACK && buf[2] == cmd
      ensures ok <==> Classify(cmd, buf[..nb]).Ack?
    {
      ok := false;
      if nb >= 4 {
        var cs := CalculateCs(nb);
        if buf[nb - 1] == cs && buf[1] == nb - 3 {
          if buf[0] == MSG_ACK && buf[2] == cmd {
            ok := true;
          } else if buf[0] == MSG_NAK && nb == 4 {
            // The sensor rejected the request; its error code is buf[2].
          }
        }
      }
      ChecksumReadsPrefix(buf[..], buf[..nb], nb);
    }

    /** `valid_response_len(cmd, nb, len)`: nb is the expected count and
        the buffer holds a valid response to cmd, which then sums to 0. */
    method ValidResponseLen(cmd: byte, nb: byte, len: byte) returns (ok: bool)
      requires Valid() && nb <= LEN_BUF_MSG
      ensures ok <==> ClassifyLen(cmd, buf[..nb], len).Ack?
      ensures nb != len ==> !ok
      ensures ok ==> Sum(buf[..nb]) % 256 == 0
    {
      ok := false;
      if nb == len {
        ok := ValidResponse(cmd, nb);
      }
    }

    /** `send_cmd_data(cmd, size)`: for 4 <= size <= 20, fills in the header
        and the checksum around the payload already in buf[3..size-1] and
        writes the frame; otherwise does nothing. */
    method SendCmdData(cmd: byte, size: byte)
      requires Valid()
      modifies this`written, buf
      ensures Valid()
      ensures 4 <= size <= LEN_BUF_MSG ==>
                && buf[..size] == Frame(MSG_IP, cmd, old(buf[3..size - 1]))
                && buf[size..] == old(buf[size..])
                && written == old(written) + [buf[..size]]
      ensures !(4 <= size <= LEN_BUF_MSG) ==> buf[..] == old(buf[..]) && written == old(written)
    {
      if 4 <= size <= LEN_BUF_MSG {
        ghost var payload := buf[3..size - 1];
        buf[0] := MSG_IP;
        buf[1] := size - 3;
        buf[2] := cmd;
        var cs := CalculateCs(size);
        assert buf[..size - 1] == [MSG_IP, size - 3, cmd] + payload;
        buf[size - 1] := cs;
        assert buf[..size - 1] == [MSG_IP, size - 3, cmd] + payload;
        assert buf[..size] == buf[..size - 1] + [cs];
        SerialWriteBytes(size);
      }
    }

    /** `send_cmd(cmd)`: a request without payload. */
    method SendCmd(cmd: byte)
      requires Valid()
      modifies this`written, buf
      ensures Valid()
      ensures buf[..] == Frame(MSG_IP, cmd, []) + old(buf[4..])
      ensures written == old(written) + [Frame(MSG_IP, cmd, [])]
    {
      SendCmdData(cmd, 4);
      assert buf[..] == buf[..4] + buf[4..];
    }

    /** `serial_write_bytes(size)`: hands the first size bytes of the buffer
        to the transport. */
    method SerialWriteBytes(size: byte)
      requires Valid() && size <= LEN_BUF_MSG
      modifies this`written
      ensures written == old(written) + [buf[..size]]
      ensures Valid() <==> IsRequest(buf[..size])
    {
      written := written + [buf[..size]];
    }

    /** `serial_read_bytes(maxBytes, timeoutSeconds)`: stores the bytes the
        transport delivers at the front of the buffer and returns their count. */
    method SerialReadBytes(maxBytes: byte, timeoutSeconds: int, reply: seq<byte>) returns (nb: byte)
      requires Valid() && maxBytes <= LEN_BUF_MSG
      modifies buf
      ensures Valid()
      ensures nb == ReadCount(maxBytes, timeoutSeconds, reply)
      ensures buf[..] == Overlay(reply[..nb], old(buf[..]))
    {
      nb := 0;
      if maxBytes > 0 && timeoutSeconds > 0 {
        // Polling: the reply is available before the timeout exactly when
        // it is non-empty; otherwise the loop runs out the clock.
        if |reply| > 0 {
          nb := if |reply| < maxBytes then |reply| else maxBytes;
          var i: byte := 0;
          while i < nb
            invariant i <= nb
            invariant buf[..] == reply[..i] + old(buf[..])[i..]
          {
            buf[i] := reply[i];
            i := i + 1;
          }
        }
      }
    }

    /** `memset(buf_msg, 0, CM1106_LEN_BUF_MSG)`. */
    method ClearBuffer()
      requires Valid()
      modifies buf
      ensures Valid()
      ensures buf[..] == Zeros(LEN_BUF_MSG)
    {
      forall i | 0 <= i < buf.Length {
        buf[i] := 0;
      }
    }

    // -------------------------------------------------------------------
    // Getters
    // -------------------------------------------------------------------

    /** `get_serial_number`: the five big-endian fields of a 14-byte
        reply, each as `%04d`, concatenated; empty when the reply is not
        accepted. */
    method GetSerialNumber(reply: seq<byte>) returns (sn: string)
      requires Valid()
      modifies this`written, buf
      ensures Valid()
      ensures written == old(written) + [Frame(MSG_IP, CMD_GET_SERIAL_NUMBER, [])]
      ensures buf[..] == Overlay(Received(14, reply), Zeros(LEN_BUF_MSG))
      ensures sn == if Accepted(CMD_GET_SERIAL_NUMBER, 14, reply) then SerialNumber(reply[..14]) else []
    {
      sn := [];
      SendCmd(CMD_GET_SERIAL_NUMBER);
      ClearBuffer();
      var nb := SerialReadBytes(14, TIMEOUT, reply);
      var ok := ValidResponseLen(CMD_GET_SERIAL_NUMBER, nb, 14);
      if ok {
        ghost var frame := buf[..14];
        assert frame == buf[..][..nb] == reply[..14];
        for i := 0 to 5
          invariant sn == SerialGroups(frame, i)
        {
          assert buf[3 + 2 * i] == frame[3 + 2 * i] && buf[4 + 2 * i] == frame[4 + 2 * i];
          sn := sn + Format04d(Word(buf[3 + 2 * i], buf[4 + 2 * i]));
        }
      }
    }

    /** `get_software_version`: up to LEN_SOFTVER characters of the
        payload of a 15-byte reply, stopping at the first NUL; empty when the
        reply is not accepted. */
    method GetSoftwareVersion(reply: seq<byte>) returns (softver: string)
      requires Valid()
      modifies this`written, buf
      ensures Valid()
      ensures written == old(written) + [Frame(MSG_IP, CMD_GET_SOFTWARE_VERSION, [])]
      ensures buf[..] == Overlay(Received(15, reply), Zeros(LEN_BUF_MSG))
      ensures softver == if Accepted(CMD_GET_SOFTWARE_VERSION, 15, reply)
                         then CString(reply[3..13], LEN_SOFTVER) else []
    {
      softver := [];
      SendCmd(CMD_GET_SOFTWARE_VERSION);
      ClearBuffer();
      var nb := SerialReadBytes(15, TIMEOUT, reply);
      var ok := ValidResponseLen(CMD_GET_SOFTWARE_VERSION, nb, 15);
      if ok {
        softver := Strncpy(3, LEN_SOFTVER);
        assert buf[3..3 + LEN_SOFTVER] == reply[3..13];
      }
    }

    /** `strncpy(dst, &buf_msg[start], count)` read back as a C string: the
        bytes from buf[start] up to the first NUL, at most count of them. */
    method Strncpy(start: nat, count: nat) returns (s: string)
      requires Valid() && start + count <= LEN_BUF_MSG
      ensures s == CString(buf[start..start + count], count)
    {
      ghost var src := buf[start..start + count];
      s := [];
      var i := 0;
      while i < count && buf[start + i] != 0
        invariant 0 <= i <= count && |s| == i
        invariant forall k :: 0 <= k < i ==> src[k] != 0 && s[k] == src[k] as char
      {
        assert src[i] == buf[start + i];
        s := s + [buf[start + i] as char];
        i := i + 1;
      }
      assert i < count ==> src[i] == 0;
      CStringUnique(src, count, s);
    }

    /** `get_co2`: the big-endian CO2 field of an 8-byte reply stored in an
        int16_t (so readings above 32767 wrap to negative), 0 when the
        reply is not accepted. */
    method GetCo2(reply: seq<byte>) returns (co2: int16)
      requires Valid()
      modifies this`written, buf
      ensures Valid()
      ensures written == old(written) + [Frame(MSG_IP, CMD_GET_CO2, [])]
      ensures buf[..] == Overlay(Received(8, reply), Zeros(LEN_BUF_MSG))
      ensures co2 == if Accepted(CMD_GET_CO2, 8, reply) then ToInt16(Word(reply[3], reply[4])) else 0
    {
      co2 := 0;
      SendCmd(CMD_GET_CO2);
      ClearBuffer();
      var nb := SerialReadBytes(8, TIMEOUT, reply);
      var ok := ValidResponseLen(CMD_GET_CO2, nb, 8);
      if ok {
        co2 := ToInt16(buf[3] as int * 256 + buf[4]);
      }
    }

    /** `get_ABC`: flag, cycle and big-endian base of a 10-byte reply, all
        zero when the reply is not accepted. The buffer is not cleared
        before the read, so the request frame stays behind the reply. */
    method GetAbc(reply: seq<byte>) returns (ok: bool, abc: Abc)
      requires Valid()
      modifies this`written, buf
      ensures Valid()
      ensures written == old(written) + [Frame(MSG_IP, CMD_GET_ABC, [])]
      ensures buf[..] == Overlay(Received(10, reply), Frame(MSG_IP, CMD_GET_ABC, []) + old(buf[4..]))
      ensures ok == Accepted(CMD_GET_ABC, 10, reply)
      ensures abc == if ok then Abc(reply[4], reply[5], Word(reply[6], reply[7])) else Abc(0, 0, 0)
    {
      abc := Abc(0, 0, 0);
      SendCmd(CMD_GET_ABC);
      var nb := SerialReadBytes(10, TIMEOUT, reply);
      ok := ValidResponseLen(CMD_GET_ABC, nb, 10);
      if ok {
        abc := Abc(buf[4], buf[5], Word(buf[6], buf[7]));
      }
    }

    /** `get_measurement_period`: big-endian period (stored in an int16_t)
        and smoothing count of a 7-byte reply. On failure the outputs keep
        the caller's values period0 and smoothed0. */
    method GetMeasurementPeriod(period0: int16, smoothed0: byte, reply: seq<byte>)
      returns (ok: bool, period: int16, smoothed: byte)
      requires Valid()
      modifies this`written, buf
      ensures Valid()
      ensures written == old(written) + [Frame(MSG_IP, CMD_MEASUREMENT_PERIOD, [])]
      ensures buf[..] == Overlay(Received(7, reply), Zeros(LEN_BUF_MSG))
      ensures ok == Accepted(CMD_MEASUREMENT_PERIOD, 7, reply)
      ensures ok ==> period == ToInt16(Word(reply[3], reply[4])) && smoothed == reply[5]
      ensures !ok ==> period == period0 && smoothed == smoothed0
    {
      period, smoothed := period0, smoothed0;
      SendCmdData(CMD_MEASUREMENT_PERIOD, 4);
      ClearBuffer();
      var nb := SerialReadBytes(7, TIMEOUT, reply);
      ok := ValidResponseLen(CMD_MEASUREMENT_PERIOD, nb, 7);
      if ok {
        period := ToInt16(Word(buf[3], buf[4]));
        smoothed := buf[5];
      }
    }

    /** `get_working_status`: the mode byte of a 5-byte reply. On failure
        the output keeps the caller's value mode0. */
    method GetWorkingStatus(mode0: byte, reply: seq<byte>) returns (ok: bool, mode: byte)
      requires Valid()
      modifies this`written, buf
      ensures Valid()
      ensures written == old(written) + [Frame(MSG_IP, CMD_WORKING_STATUS, [])]
      ensures buf[..] == Overlay(Received(5, reply), Zeros(LEN_BUF_MSG))
      ensures ok == Accepted(CMD_WORKING_STATUS, 5, reply)
      ensures mode == if ok then reply[3] else mode0
    {
      mode := mode0;
      SendCmdData(CMD_WORKING_STATUS, 4);
      ClearBuffer();
      var nb := SerialReadBytes(5, TIMEOUT, reply);
      ok := ValidResponseLen(CMD_WORKING_STATUS, nb, 5);
      if ok {
        mode := buf[3];
      }
    }

    // -------------------------------------------------------------------
    // Setters and actions
    // -------------------------------------------------------------------

    /** `start_calibration`: for a target in [400, 1500] ppm sends the
        6-byte request with the target big-endian and succeeds when the
        sensor acknowledges; otherwise fails with no traffic and no change. */
    method StartCalibration(concentration: int16, reply: seq<byte>) returns (ok: bool)
      requires Valid()
      modifies this`written, buf
      ensures Valid()
      ensures ok <==> CalibrationOk(concentration) && Accepted(CMD_START_CALIBRATION, 4, reply)
      ensures CalibrationOk(concentration) ==>
                && written == old(written) + [Frame(MSG_IP, CMD_START_CALIBRATION, [Hi(concentration), Lo(concentration)])]
                && buf[..] == Overlay(Received(4, reply), Zeros(LEN_BUF_MSG))
      ensures !CalibrationOk(concentration) ==> written == old(written) && buf[..] == old(buf[..])
    {
      ok := false;
      if CalibrationOk(concentration) {
        buf[3] := Hi(concentration);
        buf[4] := Lo(concentration);
        assert buf[3..5] == [Hi(concentration), Lo(concentration)];
        SendCmdData(CMD_START_CALIBRATION, 6);
        ClearBuffer();
        var nb := SerialReadBytes(4, TIMEOUT, reply);
        ok := ValidResponseLen(CMD_START_CALIBRATION, nb, 4);
      }
    }

    /** `set_ABC`: for a valid flag, cycle and base sends the 10-byte
        request `0x64, flag, cycle, base (big-endian), 0x64` and succeeds
        when the sensor acknowledges; otherwise fails with no traffic. */
    method SetAbc(openClose: byte, cycle: byte, base: int16, reply: seq<byte>) returns (ok: bool)
      requires Valid()
      modifies this`written, buf
      ensures Valid()
      ensures ok <==> AbcOk(openClose, cycle, base) && Accepted(CMD_SET_ABC, 4, reply)
      ensures AbcOk(openClose, cycle, base) ==>
                && written == old(written) + [Frame(MSG_IP, CMD_SET_ABC, [ABC_PAD, openClose, cycle, Hi(base), Lo(base), ABC_PAD])]
                && buf[..] == Overlay(Received(4, reply), Zeros(LEN_BUF_MSG))
      ensures !AbcOk(openClose, cycle, base) ==> written == old(written) && buf[..] == old(buf[..])
    {
      ok := false;
      if AbcOk(openClose, cycle, base) {
        buf[3] := ABC_PAD;
        buf[4] := openClose;
        buf[5] := cycle;
        buf[6] := Hi(base);
        buf[7] := Lo(base);
        buf[8] := ABC_PAD;
        assert buf[3..9] == [ABC_PAD, openClose, cycle, Hi(base), Lo(base), ABC_PAD];
        SendCmdData(CMD_SET_ABC, 10);
        ClearBuffer();
        var nb := SerialReadBytes(4, TIMEOUT, reply);
        ok := ValidResponseLen(CMD_SET_ABC, nb, 4);
      }
    }

    /** `store_ABC_data`: sends the request and succeeds when the sensor
        acknowledges. The buffer is not cleared before the read. */
    method StoreAbcData(reply: seq<byte>) returns (ok: bool)
      requires Valid()
      modifies this`written, buf
      ensures Valid()
      ensures written == old(written) + [Frame(MSG_IP, CMD_STORE_ABC_DATA, [])]
      ensures buf[..] == Overlay(Received(4, reply), Frame(MSG_IP, CMD_STORE_ABC_DATA, []) + old(buf[4..]))
      ensures ok == Accepted(CMD_STORE_ABC_DATA, 4, reply)
    {
      SendCmd(CMD_STORE_ABC_DATA);
      var nb := SerialReadBytes(4, TIMEOUT, reply);
      ok := ValidResponseLen(CMD_STORE_ABC_DATA, nb, 4);
    }

    /** `set_measurement_period`: for a period in [1, 600] sends the 7-byte
        request `period (big-endian), smoothed` and succeeds when the sensor
        acknowledges; otherwise fails with no traffic and no change. */
    method SetMeasurementPeriod(period: int16, smoothed: byte, reply: seq<byte>) returns (ok: bool)
      requires Valid()
      modifies this`written, buf
      ensures Valid()
      ensures ok <==> PeriodOk(period) && Accepted(CMD_MEASUREMENT_PERIOD, 4, reply)
      ensures PeriodOk(period) ==>
                && written == old(written) + [Frame(MSG_IP, CMD_MEASUREMENT_PERIOD, [Hi(period), Lo(period), smoothed])]
                && buf[..] == Overlay(Received(4, reply), Zeros(LEN_BUF_MSG))
      ensures !PeriodOk(period) ==> written == old(written) && buf[..] == old(buf[..])
    {
      ok := false;
      if PeriodOk(period) {
        buf[3] := Hi(period);
        buf[4] := Lo(period);
        buf[5] := smoothed;
        assert buf[3..6] == [Hi(period), Lo(period), smoothed];
        SendCmdData(CMD_MEASUREMENT_PERIOD, 7);
        ClearBuffer();
        var nb := SerialReadBytes(4, TIMEOUT, reply);
        ok := ValidResponseLen(CMD_MEASUREMENT_PERIOD, nb, 4);
      }
    }

    /** `set_working_status`: for single or continuous mode sends the
        5-byte request with the mode and succeeds when the sensor
        acknowledges; otherwise fails with no traffic and no change. */
    method SetWorkingStatus(mode: byte, reply: seq<byte>) returns (ok: bool)
      requires Valid()
      modifies this`written, buf
      ensures Valid()
      ensures ok <==> ModeOk(mode) && Accepted(CMD_WORKING_STATUS, 4, reply)
      ensures ModeOk(mode) ==>
                && written == old(written) + [Frame(MSG_IP, CMD_WORKING_STATUS, [mode])]
                && buf[..] == Overlay(Received(4, reply), Zeros(LEN_BUF_MSG))
      ensures !ModeOk(mode) ==> written == old(written) && buf[..] == old(buf[..])
    {
      ok := false;
      if ModeOk(mode) {
        buf[3] := mode;
        assert buf[3..4] == [mode];
        SendCmdData(CMD_WORKING_STATUS, 5);
        ClearBuffer();
        var nb := SerialReadBytes(4, TIMEOUT, reply);
        ok := ValidResponseLen(CMD_WORKING_STATUS, nb, 4);
      }
    }
  }
}
