/** The pure rules of the CM1106 protocol engine (src/cm1106_uart.cpp): the
    checksum, the frame layout, the verdict on a received frame and the
    decoding of reply payloads. The class in Cm1106Uart runs these rules on
    its message buffer; this module states what they mean. */
module Cm1106Protocol {
  import opened Cm1106Header

  // ---------------------------------------------------------------------
  // Checksum
  // ---------------------------------------------------------------------

  /** Sum of a sequence, accumulated from the front like the checksum loop. */
  function Sum(s: seq<int>): int
  {
    if s == [] then 0 else Sum(s[..|s| - 1]) + s[|s| - 1]
  }

  /** Taking one more element of a prefix adds that element to the sum. */
  lemma SumPrefixStep(s: seq<int>, i: nat)
    requires i < |s|
    ensures Sum(s[..i + 1]) == Sum(s[..i]) + s[i]
  {
    assert s[..i + 1][..i] == s[..i];
  }

  /** Reducing a running sum modulo 256 before each addition, as a
      `uint8_t` accumulator does, does not change the final residue. */
  lemma ModAddStep(a: int, b: int)
    ensures (a % 256 + b) % 256 == (a + b) % 256
  {
  }

  /** The checksum byte that follows `prefix`: the two's complement of the
      byte sum, truncated to a `uint8_t` (so a sum of 0 gives 0, not 256). */
  function Cs(prefix: seq<byte>): (c: byte)
    ensures (Sum(prefix) + c) % 256 == 0
  {
    (256 - Sum(prefix) % 256) % 256
  }

  /** Exactly one byte completes a prefix to a sum of 0 modulo 256. */
  lemma CsUnique(prefix: seq<byte>, c: byte)
    requires (Sum(prefix) + c) % 256 == 0
    ensures c == Cs(prefix)
  {
    var m := Sum(prefix) % 256;
    ModAddStep(Sum(prefix), c);
    assert m + c == 0 || m + c == 256;
  }

  /** `calculate_cs(nb)` on the buffer `frame`: the checksum of the first
      nb - 1 bytes for a packet of at least 4 bytes, 0 for a shorter one. */
  function Checksum(frame: seq<byte>, nb: int): (c: byte)
    requires nb <= |frame|
    ensures nb >= 4 ==> (Sum(frame[..nb - 1]) + c) % 256 == 0
    ensures nb < 4 ==> c == 0
  {
    if nb >= 4 then Cs(frame[..nb - 1]) else 0
  }

  /** The checksum of an nb-byte packet depends on its first nb - 1 bytes only. */
  lemma ChecksumReadsPrefix(f: seq<byte>, g: seq<byte>, nb: int)
    requires nb <= |f| && nb <= |g|
    requires nb >= 4 ==> f[..nb - 1] == g[..nb - 1]
    ensures Checksum(f, nb) == Checksum(g, nb)
  {
  }

  // ---------------------------------------------------------------------
  // Frames
  // ---------------------------------------------------------------------

  /** The frame `marker, size - 3, cmd, payload..., checksum` of size
      |payload| + 4, which `send_cmd_data` builds with marker MSG_IP and
      the sensor answers with marker MSG_ACK or MSG_NAK. */
  function Frame(marker: byte, cmd: byte, payload: seq<byte>): (f: seq<byte>)
    requires |payload| + 4 <= LEN_BUF_MSG
    ensures |f| == |payload| + 4
    ensures f[0] == marker && f[1] == |f| - 3 && f[2] == cmd
    ensures f[3..|f| - 1] == payload
    ensures f[|f| - 1] == Checksum(f, |f|)
    ensures Sum(f) % 256 == 0
  {
    var head := [marker, |payload| + 1, cmd] + payload;
    var f := head + [Cs(head)];
    assert f[..|f| - 1] == head;
    f
  }

  /** A frame carries its own marker, command and payload: any 4- to
      20-byte sequence whose length field is |f| - 3 and whose bytes sum to
      0 modulo 256 is the frame built from its bytes 0, 2 and 3..|f|-2. */
  lemma FrameOfFields(f: seq<byte>)
    requires 4 <= |f| <= LEN_BUF_MSG && f[1] == |f| - 3 && Sum(f) % 256 == 0
    ensures f == Frame(f[0], f[2], f[3..|f| - 1])
  {
    var n := |f|;
    var g := Frame(f[0], f[2], f[3..n - 1]);
    assert f[..n - 1] + [f[n - 1]] == f;
    CsUnique(f[..n - 1], f[n - 1]);
    assert f[..n - 1] == [f[0], f[1], f[2]] + f[3..n - 1];
    assert g[..n - 1] == [f[0], f[1], f[2]] + f[3..n - 1];
    assert g[..n - 1] + [g[n - 1]] == g;
  }

  /** A request as the engine writes it: 4 to 20 bytes, the request
      marker, the length field |f| - 3, and a byte sum of 0 modulo 256. */
  predicate IsRequest(f: seq<byte>)
  {
    4 <= |f| <= LEN_BUF_MSG && f[0] == MSG_IP && f[1] == |f| - 3 && Sum(f) % 256 == 0
  }

  /** The requests are exactly the frames built with the request marker. */
  lemma RequestIff(f: seq<byte>)
    ensures IsRequest(f) <==> 4 <= |f| <= LEN_BUF_MSG && f == Frame(MSG_IP, f[2], f[3..|f| - 1])
  {
    if IsRequest(f) {
      FrameOfFields(f);
    }
  }

  /** A frame is determined by its marker, command and payload. */
  lemma {:induction false} FrameInjective(m: byte, c: byte, p: seq<byte>, m': byte, c': byte, p': seq<byte>)
    requires |p| + 4 <= LEN_BUF_MSG && |p'| + 4 <= LEN_BUF_MSG
    requires Frame(m, c, p) == Frame(m', c', p')
    ensures m == m' && c == c' && p == p'
  {
    var f := Frame(m, c, p);
    assert p == f[3..|f| - 1] == p';
  }

  // ---------------------------------------------------------------------
  // Response validation
  // ---------------------------------------------------------------------

  /** Why a received frame is not a valid answer. */
  datatype Failure = UnexpectedLength | TooShort | BadChecksumOrLength | UnknownFrame

  /** The verdict on a received frame: an acknowledgement with its payload,
      a negative acknowledgement with the sensor's error code, or invalid. */
  datatype Outcome = Ack(payload: seq<byte>) | Nak(code: byte) | Invalid(why: Failure)

  /** The checks of `valid_response(cmd, nb)` on the nb = |frame| received
      bytes, in the order the source makes them. Only Ack is a valid
      response; a NAK is told apart from the other rejections. */
  function Classify(cmd: byte, frame: seq<byte>): (o: Outcome)
    ensures o.Ack? ==> |frame| >= 4 && frame[0] == MSG_ACK && frame[1] == |frame| - 3
                       && frame[2] == cmd && o.payload == frame[3..|frame| - 1]
                       && Sum(frame) % 256 == 0
    ensures o.Nak? ==> |frame| == 4 && frame[0] == MSG_NAK && frame[1] == 1
                       && o.code == frame[2] && Sum(frame) % 256 == 0
    ensures |frame| >= 4 && frame[|frame| - 1] == Checksum(frame, |frame|)
            && frame[1] == |frame| - 3 && frame[0] == MSG_ACK && frame[2] == cmd
            ==> o == Ack(frame[3..|frame| - 1])
  {
    var n := |frame|;
    if n < 4 then Invalid(TooShort)
    else if frame[n - 1] != Checksum(frame, n) || frame[1] != n - 3 then
      Invalid(BadChecksumOrLength)
    else
      assert frame[..n - 1] + [frame[n - 1]] == frame;
      if frame[0] == MSG_ACK && frame[2] == cmd then Ack(frame[3..n - 1])
      else if frame[0] == MSG_NAK && n == 4 then Nak(frame[2])
      else Invalid(UnknownFrame)
  }

  /** Within the buffer's capacity, the frames accepted as an answer to
      cmd are exactly the acknowledgement frames the sensor builds for cmd. */
  lemma AckIffFrame(cmd: byte, frame: seq<byte>)
    requires |frame| <= LEN_BUF_MSG
    ensures Classify(cmd, frame).Ack? <==> |frame| >= 4 && frame == Frame(MSG_ACK, cmd, frame[3..|frame| - 1])
  {
    if Classify(cmd, frame).Ack? {
      FrameOfFields(frame);
    }
  }

  /** `valid_response_len(cmd, nb, len)`: a count other than the expected
      one is rejected before the frame is looked at. */
  function ClassifyLen(cmd: byte, frame: seq<byte>, len: int): (o: Outcome)
    ensures |frame| != len ==> o == Invalid(UnexpectedLength)
    ensures |frame| == len ==> o == Classify(cmd, frame)
  {
    if |frame| != len then Invalid(UnexpectedLength) else Classify(cmd, frame)
  }

  /** An acknowledgement frame built with the right checksum is accepted
      and yields its payload unchanged. */
  lemma AckRoundTrip(cmd: byte, payload: seq<byte>)
    requires |payload| + 4 <= LEN_BUF_MSG
    ensures Classify(cmd, Frame(MSG_ACK, cmd, payload)) == Ack(payload)
  {
  }

  /** A well-formed 4-byte NAK is reported as the sensor's error, never as
      a valid response, whatever command was asked for. */
  lemma NakRejected(cmd: byte, code: byte)
    ensures Classify(cmd, Frame(MSG_NAK, code, [])) == Nak(code)
  {
  }

  /** An acknowledgement whose checksum byte is changed is rejected. */
  lemma CorruptChecksumRejected(cmd: byte, frame: seq<byte>, c: byte)
    requires Classify(cmd, frame).Ack?
    requires c != frame[|frame| - 1]
    ensures Classify(cmd, frame[|frame| - 1 := c]) == Invalid(BadChecksumOrLength)
  {
    var n := |frame|;
    var g := frame[n - 1 := c];
    assert g[..n - 1] == frame[..n - 1];
    ChecksumReadsPrefix(g, frame, n);
  }

  /** An acknowledgement of another command is not a valid response. */
  lemma WrongCommandRejected(cmd: byte, frame: seq<byte>)
    requires |frame| >= 4 && frame[2] != cmd
    ensures !Classify(cmd, frame).Ack?
  {
  }

  /** The request frame itself, echoed back, is never taken for a reply. */
  lemma EchoRejected(cmd: byte, payload: seq<byte>)
    requires |payload| + 4 <= LEN_BUF_MSG
    ensures Classify(cmd, Frame(MSG_IP, cmd, payload)) == Invalid(UnknownFrame)
  {
  }

  // ---------------------------------------------------------------------
  // Reading from the transport
  // ---------------------------------------------------------------------

  /** Number of bytes `serial_read_bytes(maxBytes, timeoutSeconds)` returns
      when the sensor's reply is `reply`: none for a zero count or a
      non-positive timeout, none when nothing arrives before the timeout
      (reply == []), otherwise what one read hands back, at most maxBytes. */
  function ReadCount(maxBytes: nat, timeoutSeconds: int, reply: seq<byte>): (nb: nat)
    ensures nb <= maxBytes && nb <= |reply|
    ensures maxBytes == 0 || timeoutSeconds <= 0 ==> nb == 0
    ensures maxBytes > 0 && timeoutSeconds > 0 ==> nb == |reply| || nb == maxBytes
  {
    if maxBytes == 0 || timeoutSeconds <= 0 then 0
    else if |reply| < maxBytes then |reply|
    else maxBytes
  }

  /** The bytes a command wrapper receives when it waits for len bytes. */
  function Received(len: nat, reply: seq<byte>): (r: seq<byte>)
    ensures |r| <= len && r <= reply
  {
    reply[..ReadCount(len, TIMEOUT, reply)]
  }

  /** The wrapper expecting len bytes accepts `reply` as its answer. */
  predicate Accepted(cmd: byte, len: nat, reply: seq<byte>)
  {
    ClassifyLen(cmd, Received(len, reply), len).Ack?
  }

  /** A wrapper accepts exactly a reply whose first len bytes are a valid
      acknowledgement of its command; a shorter reply is never accepted. */
  lemma AcceptedIff(cmd: byte, len: nat, reply: seq<byte>)
    requires len > 0
    ensures Accepted(cmd, len, reply) <==> |reply| >= len && Classify(cmd, reply[..len]).Ack?
  {
  }

  /** When the sensor does not answer before the timeout, nothing is accepted. */
  lemma TimeoutRejected(cmd: byte, len: nat)
    requires len > 0
    ensures !Accepted(cmd, len, [])
  {
  }

  /** The sensor's acknowledgement of cmd, of the expected length, is
      accepted, and the buffer then starts with exactly that frame. */
  lemma AckAccepted(cmd: byte, payload: seq<byte>)
    requires |payload| + 4 <= LEN_BUF_MSG
    ensures Received(|payload| + 4, Frame(MSG_ACK, cmd, payload)) == Frame(MSG_ACK, cmd, payload)
    ensures Accepted(cmd, |payload| + 4, Frame(MSG_ACK, cmd, payload))
  {
    AckRoundTrip(cmd, payload);
  }

  /** The buffer after reading `prefix` over `base`. */
  function Overlay(prefix: seq<byte>, base: seq<byte>): (r: seq<byte>)
    requires |prefix| <= |base|
    ensures |r| == |base| && r[..|prefix|] == prefix && r[|prefix|..] == base[|prefix|..]
  {
    prefix + base[|prefix|..]
  }

  /** The cleared message buffer. */
  function Zeros(n: nat): (z: seq<byte>)
    ensures |z| == n && forall i :: 0 <= i < n ==> z[i] == 0
  {
    seq(n, _ => 0)
  }

  // ---------------------------------------------------------------------
  // 16-bit fields
  // ---------------------------------------------------------------------

  /** The big-endian field `(hi << 8) | lo` (also written hi * 256 + lo). */
  function Word(hi: byte, lo: byte): (w: nat)
    ensures w < 0x10000
    ensures w / 256 == hi && w % 256 == lo
  {
    hi * 256 + lo
  }

  /** `(v & 0xFF00) >> 8`: the high byte of an int16_t. */
  function Hi(v: int16): (h: byte)
    ensures h * 256 + Lo(v) == v as int % 0x10000
  {
    LowByteOfWord(v);
    (v as int % 0x10000) / 256
  }

  /** Reducing modulo 2^16 keeps the low byte. */
  lemma LowByteOfWord(x: int)
    ensures (x % 0x10000) % 256 == x % 256
  {
    var k := (x / 0x10000) * 256;
    assert x == k * 256 + x % 0x10000;
  }

  /** `v & 0xFF`: the low byte of an int16_t. */
  function Lo(v: int16): (l: byte)
    ensures (v as int - l) % 256 == 0
  {
    v as int % 256
  }

  /** Storing an int value in an int16_t: the value congruent to it modulo
      2^16 in [-32768, 32767]. */
  function ToInt16(x: int): (v: int16)
    ensures (v - x) % 0x10000 == 0
  {
    var m := x % 0x10000;
    if m < 0x8000 then m else m - 0x10000
  }

  /** The conversion keeps values that fit and wraps the others to negative. */
  lemma ToInt16Range(x: int)
    requires 0 <= x < 0x10000
    ensures x < 0x8000 ==> ToInt16(x) == x
    ensures 0x8000 <= x ==> ToInt16(x) == x - 0x10000 < 0
  {
  }

  /** Splitting a non-negative int16_t into high and low bytes and joining
      them again gives back the value: what a setter sends is what a getter
      reads. */
  lemma WordOfHiLo(v: int16)
    requires 0 <= v
    ensures Word(Hi(v), Lo(v)) == v
    ensures ToInt16(Word(Hi(v), Lo(v))) == v
  {
    assert v % 0x10000 == v;
  }

  /** Joining two bytes and splitting the int16_t that holds them gives back
      the bytes, for every pair (negative values included). */
  lemma HiLoOfWord(hi: byte, lo: byte)
    ensures Hi(ToInt16(Word(hi, lo))) == hi && Lo(ToInt16(Word(hi, lo))) == lo
  {
    var w := Word(hi, lo);
    var v: int := ToInt16(w);
    assert v % 0x10000 == w;
    assert v % 256 == w % 256;
  }

  // ---------------------------------------------------------------------
  // Decimal formatting (`%04d`) of the serial number
  // ---------------------------------------------------------------------

  predicate IsDigit(c: char)
  {
    '0' <= c <= '9'
  }

  function DigitChar(d: nat): char
    requires d < 10
  {
    ('0' as int + d) as char
  }

  /** Value of a string of decimal digits, most significant first. */
  function ParseDecimal(s: seq<char>): int
  {
    if s == [] then 0 else ParseDecimal(s[..|s| - 1]) * 10 + (s[|s| - 1] as int - '0' as int)
  }

  /** The decimal digits of n with no leading zero ("0" for 0). */
  function Decimal(n: nat): (s: seq<char>)
    ensures |s| >= 1 && forall i :: 0 <= i < |s| ==> IsDigit(s[i])
    ensures n >= 10 ==> s[0] != '0'
  {
    if n < 10 then [DigitChar(n)] else Decimal(n / 10) + [DigitChar(n % 10)]
  }

  function Pow10(k: nat): (p: nat)
    ensures p >= 1
  {
    if k == 0 then 1 else 10 * Pow10(k - 1)
  }

  /** Decimal reads back as the number it formats. */
  lemma {:induction false} ParseDecimalOfDecimal(n: nat)
    ensures ParseDecimal(Decimal(n)) == n
  {
    var d := Decimal(n);
    if n < 10 {
      assert d[..|d| - 1] == [];
    } else {
      assert d[..|d| - 1] == Decimal(n / 10);
      ParseDecimalOfDecimal(n / 10);
    }
  }

  /** A number has at most k decimal digits exactly when it is below 10^k. */
  lemma {:induction false} DecimalLength(n: nat, k: nat)
    requires k >= 1
    ensures |Decimal(n)| <= k <==> n < Pow10(k)
  {
    if n >= 10 {
      if k == 1 {
        assert |Decimal(n)| == |Decimal(n / 10)| + 1 >= 2;
      } else {
        DecimalLength(n / 10, k - 1);
        assert n / 10 < Pow10(k - 1) <==> n < 10 * Pow10(k - 1);
      }
    }
  }

  /** The '0' characters `%04d` pads with. */
  function ZeroPad(k: nat): (s: seq<char>)
    ensures |s| == k && forall i :: 0 <= i < k ==> s[i] == '0'
  {
    seq(k, _ => '0')
  }

  /** Leading zeros do not change the value of a digit string. */
  lemma {:induction false} ParseDecimalLeadingZeros(k: nat, s: seq<char>)
    ensures ParseDecimal(ZeroPad(k) + s) == ParseDecimal(s)
    decreases |s|, k
  {
    if s == [] {
      if k > 0 {
        assert (ZeroPad(k) + s)[..k - 1] == ZeroPad(k - 1) + s;
        ParseDecimalLeadingZeros(k - 1, s);
      } else {
        assert ZeroPad(k) + s == [];
      }
    } else {
      var t := ZeroPad(k) + s;
      assert t[..|t| - 1] == ZeroPad(k) + s[..|s| - 1];
      ParseDecimalLeadingZeros(k, s[..|s| - 1]);
    }
  }

  /** `snprintf(.., "%04d", n)`: the digits of n, left-padded with '0' to
      at least four characters. */
  function Format04d(n: nat): (s: seq<char>)
    ensures forall i :: 0 <= i < |s| ==> IsDigit(s[i])
  {
    var d := Decimal(n);
    (if |d| < 4 then ZeroPad(4 - |d|) else []) + d
  }

  /** `%04d` reads back as its number; it is four characters wide below
      10000 and five up to 65535, the largest 16-bit field. */
  lemma Format04dRoundTrip(n: nat)
    ensures ParseDecimal(Format04d(n)) == n
    ensures n < 10000 ==> |Format04d(n)| == 4
    ensures 10000 <= n < 0x10000 ==> |Format04d(n)| == 5
  {
    var d := Decimal(n);
    ParseDecimalOfDecimal(n);
    if |d| < 4 {
      ParseDecimalLeadingZeros(4 - |d|, d);
    } else {
      assert Format04d(n) == d;
    }
    DecimalLength(n, 4);
    DecimalLength(n, 5);
    assert Pow10(4) == 10000 && Pow10(5) == 100000;
  }

  // ---------------------------------------------------------------------
  // Serial number and software version
  // ---------------------------------------------------------------------

  /** The i-th big-endian 16-bit field of a serial-number reply. */
  function Field(frame: seq<byte>, i: nat): (w: nat)
    requires 4 + 2 * i < |frame|
    ensures w < 0x10000
  {
    Word(frame[3 + 2 * i], frame[4 + 2 * i])
  }

  /** The first k groups of the serial number: `%04d` of fields 0 .. k-1. */
  function SerialGroups(frame: seq<byte>, k: nat): seq<char>
    requires k <= 5 && |frame| >= 14
  {
    if k == 0 then [] else SerialGroups(frame, k - 1) + Format04d(Field(frame, k - 1))
  }

  /** The serial number `get_serial_number` builds from a 14-byte reply. */
  function SerialNumber(frame: seq<byte>): seq<char>
    requires |frame| >= 14
  {
    SerialGroups(frame, 5)
  }

  /** The i-th four-character group of a string. */
  function Group(s: seq<char>, i: nat): seq<char>
    requires 4 * i + 4 <= |s|
  {
    s[4 * i .. 4 * i + 4]
  }

  lemma {:induction false} SerialGroupsShape(frame: seq<byte>, k: nat)
    requires k <= 5 && |frame| >= 14
    requires forall i :: 0 <= i < 5 ==> Field(frame, i) < 10000
    ensures |SerialGroups(frame, k)| == 4 * k
    ensures forall i :: 0 <= i < k ==> Group(SerialGroups(frame, k), i) == Format04d(Field(frame, i))
  {
    if k > 0 {
      SerialGroupsShape(frame, k - 1);
      Format04dRoundTrip(Field(frame, k - 1));
      var prev := SerialGroups(frame, k - 1);
      var s := SerialGroups(frame, k);
      forall i | 0 <= i < k
        ensures Group(s, i) == Format04d(Field(frame, i))
      {
        if i < k - 1 {
          assert Group(s, i) == Group(prev, i);
        }
      }
    }
  }

  /** When every field is below 10000 the serial number is 20 digits, and
      its i-th group of four reads back as the i-th field of the reply. */
  lemma SerialNumberRoundTrip(frame: seq<byte>)
    requires |frame| >= 14
    requires forall i :: 0 <= i < 5 ==> Field(frame, i) < 10000
    ensures |SerialNumber(frame)| == 20
    ensures forall i :: 0 <= i < |SerialNumber(frame)| ==> IsDigit(SerialNumber(frame)[i])
    ensures forall i :: 0 <= i < 5 ==> ParseDecimal(Group(SerialNumber(frame), i)) == Field(frame, i)
  {
    SerialGroupsShape(frame, 5);
    var s := SerialNumber(frame);
    forall i | 0 <= i < 5
      ensures ParseDecimal(Group(s, i)) == Field(frame, i)
    {
      Format04dRoundTrip(Field(frame, i));
    }
    forall j | 0 <= j < 20
      ensures IsDigit(s[j])
    {
      var i := j / 4;
      var k := j - 4 * i;
      assert 0 <= k < 4;
      assert s[j] == Group(s, i)[k];
    }
  }

  /** A one-digit field is printed as three '0' and its digit. */
  lemma Format04dOneDigit(d: nat)
    requires d < 10
    ensures Format04d(d) == ['0', '0', '0', DigitChar(d)]
  {
    assert ZeroPad(3) == ['0', '0', '0'];
  }

  /** Fields 1, 2, 3, 4 and 5 give the serial number "00010002000300040005". */
  lemma SerialNumberExample()
    ensures SerialNumber([MSG_ACK, 11, CMD_GET_SERIAL_NUMBER, 0, 1, 0, 2, 0, 3, 0, 4, 0, 5, 0])
            == "00010002000300040005"
  {
    var frame: seq<byte> := [MSG_ACK, 11, CMD_GET_SERIAL_NUMBER, 0, 1, 0, 2, 0, 3, 0, 4, 0, 5, 0];
    forall i | 0 <= i < 5
      ensures Format04d(Field(frame, i)) == ['0', '0', '0', DigitChar(i + 1)]
    {
      assert Field(frame, i) == i + 1;
      Format04dOneDigit(i + 1);
    }
    assert SerialGroups(frame, 1) == "0001";
    assert SerialGroups(frame, 2) == "00010002";
    assert SerialGroups(frame, 3) == "000100020003";
    assert SerialGroups(frame, 4) == "0001000200030004";
  }

  /** The string `strncpy(dst, src, max)` leaves in dst: the bytes of src up
      to its first NUL, at most max of them. */
  function CString(src: seq<byte>, max: nat): (s: seq<char>)
    ensures |s| <= max && |s| <= |src|
    ensures forall i :: 0 <= i < |s| ==> src[i] != 0 && s[i] == src[i] as char
    ensures |s| < max && |s| < |src| ==> src[|s|] == 0
  {
    if max == 0 || src == [] || src[0] == 0 then []
    else [src[0] as char] + CString(src[1..], max - 1)
  }

  /** The three properties of CString determine it: any string that copies
      a NUL-free prefix of src, stopping only at max, at the end of src or
      at a NUL, is CString(src, max). */
  lemma CStringUnique(src: seq<byte>, max: nat, t: seq<char>)
    requires |t| <= max && |t| <= |src|
    requires forall i :: 0 <= i < |t| ==> src[i] != 0 && t[i] == src[i] as char
    requires |t| < max && |t| < |src| ==> src[|t|] == 0
    ensures t == CString(src, max)
  {
    var c := CString(src, max);
    assert |c| == |t|;
  }
}
