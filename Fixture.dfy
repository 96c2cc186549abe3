/** The frame of the library's receiver tests: type 0x01 and the ten bytes
    of "helloworld" give the nineteen bytes
      55 AA 01 0A 00 68 65 6C 6C 6F 77 6F 72 6C 64 84 DA AA 55
    and a parser fed those bytes reports that frame at its last byte. */
module Fixture {
  import opened Bytes
  import opened Crc
  import opened PktProtocol
  import ParserProofs

  /** The payload "helloworld". */
  const HelloWorld: seq<byte> := [0x68, 0x65, 0x6C, 0x6C, 0x6F, 0x77, 0x6F, 0x72, 0x6C, 0x64]

  /** The fifteen bytes the CRC covers: the header and the payload. */
  const Covered: seq<byte> := [0x55, 0xAA, 0x01, 0x0A, 0x00] + HelloWorld

  /** The CRC register before each covered byte and after the last one. */
  const Trace: seq<bv16> := [0xFFFF, 0xEBA0, 0xF8E5, 0x9B36, 0xA598, 0x7D4F, 0x0D94, 0x79AE,
                             0xEC94, 0x0588, 0x45EC, 0xFA11, 0xC21C, 0xBBDB, 0x609A, 0xDA84]

  /** The expected frame, byte for byte. */
  const Expected: seq<byte> := Covered + [0x84, 0xDA, 0xAA, 0x55]

  /** One entry of the trace: the register after byte `k`. */
  lemma TraceStep(k: nat)
    requires k < 15
    ensures ByteStep(Trace[k], Covered[k]) == Trace[k + 1]
  {
    if k < 5 {
      TraceHeader(k);
    } else if k < 10 {
      TraceHello(k);
    } else {
      TraceWorld(k);
    }
  }

  lemma TraceHeader(k: nat)
    requires k < 5
    ensures ByteStep(Trace[k], Covered[k]) == Trace[k + 1]
  {
    match k
    case 0 => case 1 => case 2 => case 3 => case 4 =>
  }

  lemma TraceHello(k: nat)
    requires 5 <= k < 10
    ensures ByteStep(Trace[k], Covered[k]) == Trace[k + 1]
  {
    match k
    case 5 => case 6 => case 7 => case 8 => case 9 =>
  }

  lemma TraceWorld(k: nat)
    requires 10 <= k < 15
    ensures ByteStep(Trace[k], Covered[k]) == Trace[k + 1]
  {
    match k
    case 10 => case 11 => case 12 => case 13 => case 14 =>
  }

  /** CRC16-CCITT-FALSE of the covered bytes is 0xDA84. */
  lemma CoveredCrc()
    ensures Crc16(Covered) == 0xDA84
  {
    var k := 15;
    while k > 0
      invariant 0 <= k <= 15
      invariant Continue(Trace[k], Covered[k..]) == 0xDA84
    {
      k := k - 1;
      TraceStep(k);
      assert Covered[k..][1..] == Covered[k + 1..];
    }
  }

  /** The packed header for type 0x01 and length 10: 55 AA 01 0A 00. */
  lemma FixtureHead()
    ensures FrameHead(0x01, 10) + HelloWorld == Covered
  {
    HeadBytes(0x01, 10);
    ByteInj(Le16(10)[0], 0x0A);
    ByteInj(Le16(10)[1], 0x00);
  }

  /** The frame `protocol_pack_frame` builds for the test is the expected
      nineteen bytes. */
  lemma FixtureFrame()
    ensures FrameBytes(0x01, HelloWorld) == Expected
  {
    FixtureHead();
    CoveredCrc();
    FrameParts(0x01, HelloWorld);
    assert CrcBytes(0xDA84) == [0x84, 0xDA];
  }

  /** The first part of the frame as the receiver tests split it: the
      header and "hell". */
  const Part1: seq<byte> := [0x55, 0xAA, 0x01, 0x0A, 0x00, 0x68, 0x65, 0x6C, 0x6C]

  /** The second part: "oworld", the CRC and the tail. */
  const Part2: seq<byte> := [0x6F, 0x77, 0x6F, 0x72, 0x6C, 0x64, 0x84, 0xDA, 0xAA, 0x55]

  /** The two parts are the frame cut after its fourth payload byte. */
  lemma SplitBytes()
    ensures Part1 == FrameHead(0x01, |HelloWorld|) + HelloWorld[..4]
    ensures Part2 == (HelloWorld[4..] + (CrcBytes(Crc16(FrameHead(0x01, |HelloWorld|) + HelloWorld)) + [FrameTailLow])) + [FrameTailHigh]
  {
    FixtureHead();
    CoveredCrc();
    assert CrcBytes(0xDA84) == [0x84, 0xDA];
    assert Covered[..5] + HelloWorld[..4] == Part1;
  }

  /** The pack-and-parse test's loop: a fresh parser is fed `bytes` one by one;
      the result of each call is recorded and the parser is returned in
      whatever state the last byte left it. */
  method ParseStream(bytes: seq<byte>) returns (p: Parser, results: seq<bool>)
    ensures p.Valid() && fresh(p.Repr)
    ensures (p.View(), results) == FeedAll(Initial(), bytes)
  {
    p := new Parser();
    results := [];
    var i := 0;
    while i < |bytes|
      invariant 0 <= i <= |bytes|
      invariant p.Valid() && fresh(p.Repr)
      invariant (p.View(), results) == FeedAll(Initial(), bytes[..i])
    {
      var done := p.ParseByte(bytes[i]);
      ParserProofs.FeedPrefix(Initial(), bytes, i);
      results := results + [done];
      i := i + 1;
    }
    assert bytes[..i] == bytes;
  }

  /** The pack-and-parse test: the sensor payload 01 02 03 04 is packed
      (when malloc succeeds) into a 13-byte frame; fed to a fresh parser,
      every byte but the last returns 0 and the last returns 1, with the
      parser holding the sensor type and the payload. */
  method PackAndParse() returns (frame: seq<byte>, results: seq<bool>)
    ensures |frame| == 13 && frame == FrameBytes(TypeSensor, [0x01, 0x02, 0x03, 0x04])
    ensures results == ParserProofs.Falses(12) + [true]
  {
    var sensor: seq<byte> := [0x01, 0x02, 0x03, 0x04];
    var packed := PackFrame(TypeSensor, sensor, 4, true);
    frame := packed.value;
    FrameLayout(TypeSensor, sensor);
    var p;
    p, results := ParseStream(frame);
    ParserProofs.RoundTrip(Initial(), TypeSensor, sensor);
    assert p.ftype == TypeSensor && p.data[..] == sensor;
  }
}
