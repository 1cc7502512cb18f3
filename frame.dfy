/**
 * The command frame sent to the device and the response frame read back.
 * A command goes out as word address 0x03 followed by a packet
 * [count, opcode, param1, param2 low, param2 high, data..., crc low,
 * crc high]; a response comes back as [count, data..., crc low, crc high].
 * Both carry the CRC-16 of every byte from the count up to the CRC.
 */
module Frame {
  import opened Base
  import Crc16

  /** Word address that marks the bytes after it as a command. */
  const WordAddressCommand: Byte := 0x03
  /** Smallest response: count byte, one status byte, two CRC bytes. */
  const ResponseSizeMin: nat := 4

  /** The fields the executors take from a packet object. */
  datatype Packet = Packet(txsize: nat, opcode: Byte, param1: nat, param2: nat,
                           data: seq<Byte>, rxsize: nat)

  /** The two CRC bytes, least significant first. */
  function CrcLE(crc: nat): (s: seq<Byte>)
    ensures |s| == 2
    ensures crc < 0x1_0000 ==> LE16(s, 0) == crc
  {
    [ToByte(crc), ToByte(crc / 256)]
  }

  /** The CRC-covered bytes of a command: txsize, opcode, param1, param2
      (each cut to one byte as Buffer.from does) and the data. */
  function Payload(p: Packet): (s: seq<Byte>)
    ensures |s| == 5 + |p.data|
    ensures s[0] == p.txsize % 256 && s[1] == p.opcode && s[2] == p.param1 % 256
    ensures LE16(s, 3) == p.param2 % 0x1_0000
    ensures s[5..] == p.data
  {
    [ToByte(p.txsize), p.opcode, ToByte(p.param1), ToByte(p.param2), ToByte(p.param2 / 256)] + p.data
  }

  /** The bytes written to the device for a packet. */
  function Encode(p: Packet): (frame: seq<Byte>)
    ensures |frame| == |p.data| + 8
    ensures frame[0] == WordAddressCommand
    ensures frame[1..|frame| - 2] == Payload(p)
    ensures LE16(frame, |frame| - 2) == Crc16.Crc(frame[1..|frame| - 2])
  {
    var payload := Payload(p);
    var frame := [WordAddressCommand] + payload + CrcLE(Crc16.Crc(payload));
    assert frame[1..|frame| - 2] == payload;
    frame
  }

  /** With txsize = 7 + |data| the frame is the word address followed by
      exactly txsize bytes. */
  lemma EncodeSize(p: Packet)
    requires p.txsize == 7 + |p.data|
    ensures |Encode(p)| == p.txsize + 1
  {
  }

  datatype ResponseError =
    | InvalidCount  // 'invalid count': the count byte is below 4
    | BadCrc        // 'BAD_CRC': the trailing CRC does not match

  /** The length the response is cut to: its count byte, but no more bytes
      than the buffer holds (Buffer.slice clamps). */
  function FrameLength(rsp: seq<Byte>): (n: nat)
    requires |rsp| >= ResponseSizeMin
    ensures n <= |rsp|
    ensures rsp[0] >= ResponseSizeMin ==> ResponseSizeMin <= n
  {
    if rsp[0] <= |rsp| then rsp[0] else |rsp|
  }

  /** The response check of both executors; rsp is the whole receive buffer. */
  function Validate(rsp: seq<Byte>): (r: Result<seq<Byte>, ResponseError>)
    requires |rsp| >= ResponseSizeMin
    ensures r == Err(InvalidCount) <==> rsp[0] < ResponseSizeMin
    ensures r.Ok? <==> rsp[0] >= ResponseSizeMin &&
                       Crc16.Crc(rsp[..FrameLength(rsp) - 2]) == LE16(rsp, FrameLength(rsp) - 2)
    ensures r.Ok? ==> |r.value| == FrameLength(rsp) - 3 && r.value == rsp[1..FrameLength(rsp) - 2]
  {
    if rsp[0] < ResponseSizeMin then Err(InvalidCount)
    else
      // rsp.slice(0, rsp[0]), then its CRC checked and its middle returned
      var n := FrameLength(rsp);
      if Crc16.Crc(rsp[..n - 2]) != LE16(rsp, n - 2) then Err(BadCrc)
      else Ok(rsp[1..n - 2])
  }

  /** A response packet carrying body: count, body, CRC. */
  function Encapsulate(body: seq<Byte>): (rsp: seq<Byte>)
    requires |body| + 3 < 256
    ensures |rsp| == |body| + 3 && rsp[0] == |rsp|
  {
    var head := [(|body| + 3) as Byte] + body;
    head + CrcLE(Crc16.Crc(head))
  }

  /** Every well-formed packet validates to its body, whatever the rest of
      the receive buffer holds. */
  lemma ValidateEncapsulate(body: seq<Byte>, rest: seq<Byte>)
    requires 1 <= |body| && |body| + 3 < 256
    ensures Validate(Encapsulate(body) + rest) == Ok(body)
  {
    var e := Encapsulate(body);
    var rsp := e + rest;
    var head := [(|body| + 3) as Byte] + body;
    assert e == head + CrcLE(Crc16.Crc(head));
    assert FrameLength(rsp) == |e|;
    assert rsp[..|e| - 2] == head;
    Crc16.CrcEmptyAndBounded(head);
    assert LE16(rsp, |e| - 2) == LE16(CrcLE(Crc16.Crc(head)), 0);
    assert rsp[1..|e| - 2] == body;
  }

  /** Conversely, a response that validates, and whose count fits in the
      buffer, begins with exactly the packet of the returned body. */
  lemma ValidatedIsEncapsulated(rsp: seq<Byte>)
    requires |rsp| >= ResponseSizeMin && rsp[0] <= |rsp|
    requires Validate(rsp).Ok?
    ensures rsp[..rsp[0]] == Encapsulate(Validate(rsp).value)
  {
    var n := rsp[0];
    var body := Validate(rsp).value;
    var head := [(|body| + 3) as Byte] + body;
    assert head == rsp[..n - 2];
    CrcLEOfLE16(rsp, n - 2);
    assert rsp[..n] == head + rsp[n - 2..n];
  }

  /** Two bytes read as a little-endian value and written back are the
      same two bytes. */
  lemma CrcLEOfLE16(s: seq<Byte>, i: nat)
    requires i + 2 <= |s|
    ensures CrcLE(LE16(s, i)) == s[i..i + 2]
  {
    var v := LE16(s, i);
    assert ToByte(v) == s[i];
    assert ToByte(v / 256) == s[i + 1];
  }

  /** With txsize = 7 + |data| the command after its word address is itself
      a packet in the response format, so the two formats agree. */
  lemma EncodeIsEncapsulated(p: Packet)
    requires p.txsize == 7 + |p.data| && p.txsize < 256
    ensures Encode(p)[1..] == Encapsulate(Payload(p)[1..])
  {
    var payload := Payload(p);
    assert payload == [p.txsize as Byte] + payload[1..];
    assert Encode(p)[1..] == payload + CrcLE(Crc16.Crc(payload));
  }

  const WakeSentinel: seq<Byte> := [0x04, 0x11, 0x33, 0x43]

  /** The bytes a device answers with after waking are the response packet
      of the single status byte 0x11. */
  lemma WakeSentinelIsResponse()
    ensures WakeSentinel == Encapsulate([0x11])
    ensures Validate(WakeSentinel) == Ok([0x11])
  {
    Crc16.WakeSentinelCrc();
    assert [(|[0x11]| + 3) as Byte] + [0x11] == [0x04, 0x11];
    assert WakeSentinel[..2] == [0x04, 0x11];
  }
}
