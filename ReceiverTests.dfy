/** The receiver tests of the library, on the receiver value: each test's
    appends from `protocol_receiver_init(&receiver, 100, mock_callback)`,
    with the number of callbacks and write_pos it checks. The frame is the
    nineteen-byte "helloworld" frame, whole or split after its fourth
    payload byte; garbage chunks hold no 0x55. The outcome of realloc is a
    parameter: no append in these tests reaches it. */
module ReceiverTests {
  import opened Bytes
  import opened PktProtocol
  import opened ParserProofs
  import opened PktReceiver
  import opened ReceiverFrames
  import ReceiverProofs
  import opened Fixture

  /** What the callback receives for the test frame. */
  const TestFrame: Frame := Frame(0x01, HelloWorld)

  /** The garbage chunks of the tests. */
  const Garbage1: seq<byte> := [0x01, 0x02, 0x03, 0x04]
  const Garbage2: seq<byte> := [0x05, 0x06, 0x07, 0x08, 0x09]

  /** The first half of the split frame, appended to a receiver waiting
      for a header. */
  lemma FirstHalf(s: Rx, reallocOk: bool)
    requires s.p == s.w && s.parser.state == WaitHeader1 && s.w + 9 <= s.size
    ensures var r := AppendSpec(s, Part1, reallocOk);
      && r.p == r.w == s.w + 9 && r.parser == Partial(s.parser, 0x01, HelloWorld, 4)
      && r.emitted == s.emitted && r.size == s.size && r.cb == s.cb
  {
    SplitBytes();
    AppendFrameStart(s, 0x01, HelloWorld, 4, reallocOk);
  }

  /** The second half of the split frame, appended right after the first. */
  lemma SecondHalf(s: Rx, v0: ParserView, reallocOk: bool)
    requires s.p == s.w && s.parser == Partial(v0, 0x01, HelloWorld, 4) && 9 <= s.w && s.w + 10 <= s.size
    ensures var r := AppendSpec(s, Part2, reallocOk);
      && r.w == 0 && r.p == 0 && r.parser == Initial()
      && r.emitted == s.emitted + (if s.cb then [TestFrame] else [])
      && r.size == s.size && r.cb == s.cb
  {
    SplitBytes();
    AppendFrameRest(s, v0, 0x01, HelloWorld, 4, reallocOk);
  }

  /** The whole frame, appended to a receiver waiting for a header. */
  lemma WholeFrame(s: Rx, reallocOk: bool)
    requires s.p == s.w && s.parser.state == WaitHeader1 && s.w + 19 <= s.size
    ensures var r := AppendSpec(s, Expected, reallocOk);
      && r.w == 0 && r.p == 0 && r.parser == Initial()
      && r.emitted == s.emitted + (if s.cb then [TestFrame] else [])
      && r.size == s.size && r.cb == s.cb
  {
    FixtureFrame();
    AppendWholeFrame(s, 0x01, HelloWorld, reallocOk);
  }

  /** The split frame, its two halves appended one after the other to a
      receiver waiting for a header. */
  lemma SplitFrame(s: Rx, reallocOk: bool)
    requires s.p == s.w && s.parser.state == WaitHeader1 && s.w + 19 <= s.size
    ensures var s1 := AppendSpec(s, Part1, reallocOk);
      var r := AppendSpec(s1, Part2, reallocOk);
      && s1.emitted == s.emitted && s1.w == s.w + 9
      && r.w == 0 && r.p == 0 && r.parser == Initial()
      && r.emitted == s.emitted + (if s.cb then [TestFrame] else [])
      && r.size == s.size && r.cb == s.cb
  {
    FirstHalf(s, reallocOk);
    SecondHalf(AppendSpec(s, Part1, reallocOk), s.parser, reallocOk);
  }

  /** The garbage chunks hold no first header byte. */
  lemma GarbageHasNoHeader()
    ensures NoHeaderByte(Garbage1) && NoHeaderByte(Garbage2)
  {
  }

  /** A garbage chunk, then the split frame, appended to a receiver
      waiting for a header (`s1` to `r` are the receiver after each
      append): the garbage is scanned past and the frame reported. */
  lemma GarbageThenSplit(reallocOk: bool, g: seq<byte>, s: Rx, s1: Rx, s2: Rx, r: Rx)
    requires s.p == s.w && s.parser.state == WaitHeader1 && s.w + |g| + 19 <= s.size
    requires NoHeaderByte(g)
    requires s1 == AppendSpec(s, g, reallocOk)
    requires s2 == AppendSpec(s1, Part1, reallocOk)
    requires r == AppendSpec(s2, Part2, reallocOk)
    ensures s2.emitted == s.emitted && s2.w == s.w + |g| + 9
    ensures r.w == 0 && r.emitted == s.emitted + (if s.cb then [TestFrame] else [])
  {
    AppendNoHeader(s, g, reallocOk);
    SplitFrame(s1, reallocOk);
  }

  /** test_all_append: one callback. */
  lemma AllAppend(reallocOk: bool)
    ensures var r := AppendSpec(Fresh(100, true), Expected, reallocOk);
      r.emitted == [TestFrame] && r.w == 0
  {
    WholeFrame(Fresh(100, true), reallocOk);
  }

  /** test_partial_append: one callback once the second half arrives. */
  lemma SplitAppend(reallocOk: bool)
    ensures var s1 := AppendSpec(Fresh(100, true), Part1, reallocOk);
      var r := AppendSpec(s1, Part2, reallocOk);
      s1.emitted == [] && r.emitted == [TestFrame] && r.w == 0
  {
    SplitFrame(Fresh(100, true), reallocOk);
  }

  /** test_multiple_partial_append: two garbage chunks, then the split
      frame (`s1` to `r` are the receiver after each append): one
      callback, and the garbage is gone from the buffer. */
  lemma MultiplePartialAppend(reallocOk: bool, s1: Rx, s2: Rx, s3: Rx, r: Rx)
    requires s1 == AppendSpec(Fresh(100, true), Garbage1, reallocOk)
    requires s2 == AppendSpec(s1, Garbage2, reallocOk)
    requires s3 == AppendSpec(s2, Part1, reallocOk)
    requires r == AppendSpec(s3, Part2, reallocOk)
    ensures s3.emitted == [] && s3.w == 18 && r.emitted == [TestFrame] && r.w == 0
  {
    GarbageHasNoHeader();
    AppendNoHeader(Fresh(100, true), Garbage1, reallocOk);
    GarbageThenSplit(reallocOk, Garbage2, s1, s2, s3, r);
  }

  /** test_multiple_partial_append2: the split frame twice: two callbacks. */
  lemma MultiplePartialAppend2(reallocOk: bool, s1: Rx, s2: Rx, s3: Rx, r: Rx)
    requires s1 == AppendSpec(Fresh(100, true), Part1, reallocOk)
    requires s2 == AppendSpec(s1, Part2, reallocOk)
    requires s3 == AppendSpec(s2, Part1, reallocOk)
    requires r == AppendSpec(s3, Part2, reallocOk)
    ensures s2.emitted == [TestFrame] && r.emitted == [TestFrame, TestFrame] && r.w == 0
  {
    SplitFrame(Fresh(100, true), reallocOk);
    SplitFrame(s2, reallocOk);
  }

  /** test_multiple_partial_append3: the split frame, then the whole
      frame: two callbacks, and the receiver is empty again. */
  lemma MultiplePartialAppend3(reallocOk: bool, s1: Rx, s2: Rx, r: Rx)
    requires s1 == AppendSpec(Fresh(100, true), Part1, reallocOk)
    requires s2 == AppendSpec(s1, Part2, reallocOk)
    requires r == AppendSpec(s2, Expected, reallocOk)
    ensures r.emitted == [TestFrame, TestFrame] && r.w == 0
    ensures r.p == 0 && r.parser == Initial() && r.size == 100 && r.cb
  {
    SplitFrame(Fresh(100, true), reallocOk);
    WholeFrame(s2, reallocOk);
  }

  /** test_multiple_partial_append4: the split frame, the whole frame, a
      garbage chunk and the split frame again: three callbacks. */
  lemma MultiplePartialAppend4(reallocOk: bool, s1: Rx, s2: Rx, s3: Rx, s4: Rx, s5: Rx, r: Rx)
    requires s1 == AppendSpec(Fresh(100, true), Part1, reallocOk)
    requires s2 == AppendSpec(s1, Part2, reallocOk)
    requires s3 == AppendSpec(s2, Expected, reallocOk)
    requires s4 == AppendSpec(s3, Garbage1, reallocOk)
    requires s5 == AppendSpec(s4, Part1, reallocOk)
    requires r == AppendSpec(s5, Part2, reallocOk)
    ensures r.emitted == [TestFrame, TestFrame, TestFrame] && r.w == 0
  {
    MultiplePartialAppend3(reallocOk, s1, s2, s3);
    ThirdFrame(reallocOk, s3, s4, s5, r);
  }

  /** The last three appends of test_multiple_partial_append4, after two
      frames have been reported and the buffer is empty again. */
  lemma ThirdFrame(reallocOk: bool, s3: Rx, s4: Rx, s5: Rx, r: Rx)
    requires s3.p == s3.w == 0 && s3.parser == Initial() && s3.size == 100 && s3.cb
    requires s3.emitted == [TestFrame, TestFrame]
    requires s4 == AppendSpec(s3, Garbage1, reallocOk)
    requires s5 == AppendSpec(s4, Part1, reallocOk)
    requires r == AppendSpec(s5, Part2, reallocOk)
    ensures r.emitted == [TestFrame, TestFrame, TestFrame] && r.w == 0
  {
    GarbageHasNoHeader();
    GarbageThenSplit(reallocOk, Garbage1, s3, s4, s5, r);
    assert [TestFrame, TestFrame] + [TestFrame] == [TestFrame, TestFrame, TestFrame];
  }

  /** The sensor payload of the pack tests. */
  const Sensor: seq<byte> := [0x01, 0x02, 0x03, 0x04]

  /** test_append_normal: the packed sensor frame in one append: one
      callback, and the buffer is empty again. */
  lemma AppendNormal(reallocOk: bool)
    ensures var r := AppendSpec(Fresh(100, true), FrameBytes(TypeSensor, Sensor), reallocOk);
      r.emitted == [Frame(TypeSensor, Sensor)] && r.w == 0
  {
    AppendWholeFrame(Fresh(100, true), TypeSensor, Sensor, reallocOk);
  }

  /** The receiver test_append_after_processing starts from: 40 unscanned
      bytes (malloc's contents, modelled as zeros) after 10 processed ones. */
  function AfterProcessingStart(): (r: Rx)
    ensures r.p == 10 && r.w == 50 && r.size == 100
  {
    RxState(Zeros(100), 100, 50, 10, Initial(), true, [])
  }

  /** The first append of test_append_after_processing: 60 zero bytes do
      not fit after write_pos 50, so the 10 processed bytes are discarded
      first; everything is scanned and nothing is reported. */
  lemma AfterProcessingFill(reallocOk: bool)
    ensures var r := AppendSpec(AfterProcessingStart(), Zeros(60), reallocOk);
      r.w == 100 && r.p == 100 && r.parser == Initial() && r.emitted == [] && r.size == 100 && r.cb
  {
    var s := AfterProcessingStart();
    var d := Discard(s);
    AppendAfterDiscard(s, Zeros(60), reallocOk);
    assert d.w == 40 && NoHeaderByte(d.buf);
    var t := Put(d, Zeros(60), 60);
    assert t.buf == d.buf[..40] + Zeros(60)[..60] + d.buf[100..];
    assert NoHeaderByte(t.buf);
    TryParseNoHeader(t);
  }

  /** test_append_after_processing: the packed sensor frame then no longer
      fits after write_pos 100; the processed bytes are discarded, the
      frame is reported and processed_pos is 0. */
  lemma AppendAfterProcessing(reallocOk: bool)
    ensures var s1 := AppendSpec(AfterProcessingStart(), Zeros(60), reallocOk);
      var r := AppendSpec(s1, FrameBytes(TypeSensor, Sensor), reallocOk);
      r.p == 0 && r.emitted == [Frame(TypeSensor, Sensor)] && r.w == 0
  {
    AfterProcessingFill(reallocOk);
    var s1 := AppendSpec(AfterProcessingStart(), Zeros(60), reallocOk);
    FrameLayout(TypeSensor, Sensor);
    AppendAfterDiscard(s1, FrameBytes(TypeSensor, Sensor), reallocOk);
    AppendWholeFrame(Discard(s1), TypeSensor, Sensor, reallocOk);
  }

  /** A receiver of 50 bytes with write_pos poked to `w`. */
  function Poked(w: u16): (r: Rx)
    requires w <= 50
    ensures r.p == 0 && r.w == w && r.size == 50
  {
    RxState(Zeros(50), 50, w, 0, Initial(), true, [])
  }

  /** test_append_partial_discard_on_realloc_fail: 20 bytes after
      write_pos 40 in a 50-byte buffer, realloc failing: the first 10 are
      written, write_pos is 50 and the rest is dropped. */
  lemma PartialDiscardOnReallocFail()
    ensures AppendSpec(Poked(40), Zeros(20), false).w == 50
  {
    var s := Poked(40);
    var t := Put(s, Zeros(20), 10);
    assert t.buf == s.buf[..40] + Zeros(20)[..10] + s.buf[50..];
    assert NoHeaderByte(t.buf);
    TryParseNoHeader(t);
  }

  /** test_append_full_discard_on_realloc_fail: a full 50-byte buffer,
      realloc failing: nothing is written and write_pos stays 50. */
  lemma FullDiscardOnReallocFail()
    ensures AppendSpec(Poked(50), Zeros(20), false).w == 50
  {
    var s := Poked(50);
    assert NoHeaderByte(s.buf);
    TryParseNoHeader(s);
  }

  /** The split frame in a receiver of 18 bytes: the second half does not
      fit after the first, so the first is discarded as processed, and the
      frame it began is completed but never reported. */
  lemma SplitFrameLostInSmallBuffer(reallocOk: bool, s1: Rx, r: Rx)
    requires s1 == AppendSpec(Fresh(18, true), Part1, reallocOk)
    requires r == AppendSpec(s1, Part2, reallocOk)
    ensures s1.w == 9 && r.emitted == [] && r.w == 10 && r.parser == Initial()
  {
    FirstHalf(Fresh(18, true), reallocOk);
    SplitBytes();
    StraddleLost(s1, Fresh(18, true).parser, 0x01, HelloWorld, 4, reallocOk);
  }

  /** One doubling is not always enough: 25 bytes appended to an empty
      receiver of 10 bytes grow it to 20 and the second space check drops
      the last 5. */
  lemma ClipReachable()
    ensures var r := AppendSpec(Fresh(10, true), Zeros(25), true);
      r.size == 20 && r.w == 20 && r.emitted == []
  {
    var s := Fresh(10, true);
    ReceiverProofs.ClipAfterGrowth(s, Zeros(25));
    var g := Grow(s);
    var t := Put(g, Zeros(25), 20);
    assert t.buf == g.buf[..0] + Zeros(25)[..20] + g.buf[20..];
    TryParseNoHeader(t);
  }

  /** A receiver initialised with a buffer of 0 bytes drops every append,
      whatever realloc does. When realloc succeeds, doubling 0 gives 0 and
      with no free space the append returns before any scan. When it fails
      (realloc(p, 0) may free and return NULL), nothing is written and the
      scan over no bytes changes nothing. */
  lemma EmptyBufferDropsAll(data: seq<byte>, cb: bool, reallocOk: bool)
    requires 0 < |data| < 0x1_0000
    ensures AppendSpec(Fresh(0, cb), data, reallocOk) == Fresh(0, cb)
  {
  }

  /** The header and type bytes that open the next test frame. */
  const NextHead: seq<byte> := [FrameHeaderLow, FrameHeaderHigh, 0x01]

  /** A reset parser fed NextHead waits for the first length byte. */
  lemma NextHeadQuiet()
    ensures FeedAll(Initial(), NextHead)
      == (Initial().(header := FrameHeader, ftype := 0x01, state := WaitLength1), Falses(3))
  {
    var v1 := Initial().(state := WaitHeader2);
    var v2 := v1.(header := FrameHeader, state := WaitType);
    var v3 := v2.(ftype := 0x01, state := WaitLength1);
    assert FeedAll(v3, []) == (v3, []);
    FeedQuiet(v2, 0x01, [], v3);
    FeedHeaderHigh(v1, [0x01] + []);
    FeedHeaderLow(Initial(), [FrameHeaderHigh] + ([0x01] + []));
    assert NextHead == [FrameHeaderLow] + ([FrameHeaderHigh] + ([0x01] + []));
    assert Falses(3) == [false] + ([false] + ([false] + []));
  }

  /** The parser NextHeadQuiet leaves, fed NextHead a second time, reads
      55 AA as a payload length of 0xAA55 and 01 as its first byte. */
  lemma NextHeadAsLength()
    ensures var v := Initial().(header := FrameHeader, ftype := 0x01, state := WaitLength1);
      var r := FeedAll(v, NextHead);
      r.0.state == WaitData && r.0.len == 0xAA55 && r.0.dataIndex == 1 && r.1 == Falses(3)
  {
    var v := Initial().(header := FrameHeader, ftype := 0x01, state := WaitLength1);
    var v1 := v.(len := 0x55, state := WaitLength2);
    var v2 := LengthComplete(v1, 0xAA);
    var v3 := Step(v2, 0x01).0;
    assert Step(v2, 0x01) == (v3, false) && v3.state == WaitData && v3.dataIndex == 1;
    assert FeedAll(v3, []) == (v3, []);
    FeedQuiet(v2, 0x01, [], v3);
    FeedQuiet(v1, FrameHeaderHigh, [0x01] + [], v2);
    FeedQuiet(v, FrameHeaderLow, [FrameHeaderHigh] + ([0x01] + []), v1);
    assert NextHead == [FrameHeaderLow] + ([FrameHeaderHigh] + ([0x01] + []));
  }

  /** The test frame and the next frame's header and type in one append, to
      a receiver initialised with 100 bytes: the frame is reported and the
      three bytes stay at offset 0 with processed_pos 0, while the parser
      has already read them and waits for a length. The next scan feeds
      them again, and they become a length of 0xAA55, longer than the
      buffer can hold, so the frame they open is not reported. */
  lemma RefeedAfterFrame(reallocOk: bool)
    ensures var r := AppendSpec(Fresh(100, true), Expected + NextHead, reallocOk);
      && r.emitted == [TestFrame] && r.w == 3 && r.p == 0 && r.buf[..3] == NextHead
      && r.parser == Initial().(header := FrameHeader, ftype := 0x01, state := WaitLength1)
      && var again := FeedAll(r.parser, NextHead);
        again.0.state == WaitData && again.0.len == 0xAA55
  {
    NextHeadQuiet();
    NextHeadAsLength();
    FixtureFrame();
    AppendFrameThenRest(Fresh(100, true), 0x01, HelloWorld, NextHead, reallocOk,
                        Initial().(header := FrameHeader, ftype := 0x01, state := WaitLength1));
  }
}
