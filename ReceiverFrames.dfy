/** Appends of whole frames, of frames cut inside their payload, and of
    bytes that hold no header, to a receiver that has scanned everything:
    what each reports and where it leaves the buffer and the parser. */
module ReceiverFrames {
  import opened Bytes
  import opened PktProtocol
  import opened ParserProofs
  import opened PktReceiver
  import opened ReceiverProofs
  import Crc

  /** An append of bytes none of which is the first header byte, to a
      receiver that has scanned everything and waits for a header: nothing
      is reported and the bytes stay in the buffer, processed. */
  lemma AppendNoHeader(s: Rx, g: seq<byte>, reallocOk: bool)
    requires s.p == s.w && s.parser.state == WaitHeader1 && s.w + |g| <= s.size
    requires NoHeaderByte(g)
    ensures var r := AppendSpec(s, g, reallocOk);
      && r.p == r.w == s.w + |g| && r.parser == s.parser
      && r.emitted == s.emitted && r.size == s.size && r.cb == s.cb
  {
    NoHeaderQuiet(s.parser, g);
    AppendQuiet(s, g, reallocOk, s.parser);
  }

  /** An append of a frame's head and its first `k` payload bytes, to a
      receiver that has scanned everything and waits for a header: nothing
      is reported and the parser holds the partial frame. */
  lemma AppendFrameStart(s: Rx, t: byte, d: seq<byte>, k: nat, reallocOk: bool)
    requires k < |d| < 0x1_0000
    requires s.p == s.w && s.parser.state == WaitHeader1 && s.w + 5 + k <= s.size
    ensures var r := AppendSpec(s, FrameHead(t, |d|) + d[..k], reallocOk);
      && r.p == r.w == s.w + 5 + k && r.parser == Partial(s.parser, t, d, k)
      && r.emitted == s.emitted && r.size == s.size && r.cb == s.cb
  {
    HeadAndPrefix(s.parser, t, d, k);
    AppendQuiet(s, FrameHead(t, |d|) + d[..k], reallocOk, Partial(s.parser, t, d, k));
  }

  /** An append of the rest of a frame whose head and first `k` payload
      bytes are already in the buffer: the frame is reported (with a
      callback), the parser is reset and the buffer is empty again. */
  lemma AppendFrameRest(s: Rx, v0: ParserView, t: byte, d: seq<byte>, k: nat, reallocOk: bool)
    requires k < |d| < 0x1_0000
    requires s.p == s.w && s.parser == Partial(v0, t, d, k) && 5 + k <= s.w && s.w + (|d| - k) + 4 <= s.size
    ensures var c := Crc.Crc16(FrameHead(t, |d|) + d);
      var r := AppendSpec(s, (d[k..] + (CrcBytes(c) + [FrameTailLow])) + [FrameTailHigh], reallocOk);
      && r.w == 0 && r.p == 0 && r.parser == Initial()
      && r.emitted == s.emitted + (if s.cb then [Frame(t, d)] else [])
      && r.size == s.size && r.cb == s.cb
  {
    var c := Crc.Crc16(FrameHead(t, |d|) + d);
    SuffixToTailLow(v0, t, d, k);
    AcceptedCompletes(t, d);
    AppendComplete(s, d[k..] + (CrcBytes(c) + [FrameTailLow]), FrameTailHigh, reallocOk, Accepted(t, d));
  }

  /** An append of a whole frame with a non-empty payload, to a receiver
      that has scanned everything and waits for a header: the frame is
      reported (with a callback), the parser is reset and the buffer is
      empty again. */
  lemma AppendWholeFrame(s: Rx, t: byte, d: seq<byte>, reallocOk: bool)
    requires 1 <= |d| && s.p == s.w && s.parser.state == WaitHeader1 && s.w + |d| + 9 <= s.size
    ensures var r := AppendSpec(s, FrameBytes(t, d), reallocOk);
      && r.w == 0 && r.p == 0 && r.parser == Initial()
      && r.emitted == s.emitted + (if s.cb then [Frame(t, d)] else [])
      && r.size == s.size && r.cb == s.cb
  {
    var c := Crc.Crc16(FrameHead(t, |d|) + d);
    FrameLast(t, d);
    FrameBeforeLast(s.parser, t, d);
    AcceptedCompletes(t, d);
    AppendComplete(s, FrameHead(t, |d|) + (d + (CrcBytes(c) + [FrameTailLow])), FrameTailHigh, reallocOk, Accepted(t, d));
  }

  /** A whole frame with a non-empty payload, fed to a parser waiting for a
      header, completes nothing until its last byte, which completes the
      frame it encodes. */
  lemma FrameEnds(v: ParserView, t: byte, d: seq<byte>, reach: int)
    requires Wf(v) && v.state == WaitHeader1 && 1 <= |d| && |d| + 9 <= reach < 0x1_0000
    ensures |FrameBytes(t, d)| == |d| + 9
    ensures EndsFrame(v, FrameBytes(t, d), Accepted(t, d), reach)
  {
    var c := Crc.Crc16(FrameHead(t, |d|) + d);
    var init := FrameHead(t, |d|) + (d + (CrcBytes(c) + [FrameTailLow]));
    var f := FrameBytes(t, d);
    assert |f| == |d| + 9 by {
      FrameLayout(t, d);
    }
    assert f[..|f| - 1] == init && f[|f| - 1] == FrameTailHigh by {
      FrameLast(t, d);
    }
    assert FeedAll(v, init) == (Accepted(t, d), Falses(|d| + 8)) by {
      FrameBeforeLast(v, t, d);
    }
    AcceptedCompletes(t, d);
  }

  /** An append of two whole frames back to back, each with a non-empty
      payload, to a receiver that has scanned everything and waits for a
      header: both frames are reported in order (with a callback), the
      parser is reset and the buffer is empty again. */
  lemma AppendTwoFrames(s: Rx, t1: byte, d1: seq<byte>, t2: byte, d2: seq<byte>, reallocOk: bool)
    requires 1 <= |d1| && 1 <= |d2| && s.p == s.w && s.parser.state == WaitHeader1
    requires s.w + |d1| + |d2| + 18 <= s.size
    ensures var r := AppendSpec(s, FrameBytes(t1, d1) + FrameBytes(t2, d2), reallocOk);
      && r.w == 0 && r.p == 0 && r.parser == Initial()
      && r.emitted == s.emitted + (if s.cb then [Frame(t1, d1), Frame(t2, d2)] else [])
      && r.size == s.size && r.cb == s.cb
  {
    FrameEnds(s.parser, t1, d1, s.w + |d1| + 9);
    FrameEnds(Initial(), t2, d2, s.w + |d1| + |d2| + 18);
    AppendTwoComplete(s, FrameBytes(t1, d1), FrameBytes(t2, d2), reallocOk, Accepted(t1, d1), Accepted(t2, d2));
  }

  /** An append of a whole frame followed by bytes `c` that complete
      nothing from a reset parser, to a receiver that has scanned
      everything and waits for a header: the frame is reported (with a
      callback) and `c` stays at offset 0 with processed_pos 0, while the
      parser already stands at `v3`, where `c` takes it. The next scan
      feeds `c` to it a second time. */
  lemma AppendFrameThenRest(s: Rx, t: byte, d: seq<byte>, c: seq<byte>, reallocOk: bool, v3: ParserView)
    requires 1 <= |d| && s.p == s.w && s.parser.state == WaitHeader1 && s.w + |d| + 9 + |c| <= s.size
    requires FeedAll(Initial(), c).0 == v3 && FeedAll(Initial(), c).1 == Falses(|c|)
    ensures var r := AppendSpec(s, FrameBytes(t, d) + c, reallocOk);
      && r.w == |c| && r.p == 0 && r.buf[..|c|] == c && r.parser == v3
      && r.emitted == s.emitted + (if s.cb then [Frame(t, d)] else [])
      && r.size == s.size && r.cb == s.cb
  {
    FrameEnds(s.parser, t, d, s.w + |d| + 9);
    AppendRefeeds(s, FrameBytes(t, d), c, reallocOk, Accepted(t, d), v3);
  }

  /** try_parse_frame over unprocessed bytes none of which is the first
      header byte, with the parser waiting for a header: nothing is
      reported and processed_pos reaches write_pos. */
  lemma TryParseNoHeader(t: Rx)
    requires t.parser.state == WaitHeader1
    requires forall i :: t.p <= i < t.w ==> t.buf[i] != FrameHeaderLow
    ensures TryParse(t) == t.(p := t.w)
  {
    var g := t.buf[t.p..t.w];
    NoHeaderQuiet(t.parser, g);
    TryParseQuiet(t, g, t.parser);
  }

  /** An append that only fits once the processed bytes are discarded is
      the same append to the receiver with those bytes discarded. */
  lemma AppendAfterDiscard(s: Rx, data: seq<byte>, reallocOk: bool)
    requires |data| < 0x1_0000 && s.p > 0 && s.w + |data| > s.size && s.w - s.p + |data| <= s.size
    ensures AppendSpec(s, data, reallocOk) == AppendSpec(Discard(s), data, reallocOk)
  {
  }

  /** The rest of a frame whose head and first `k` payload bytes were
      scanned by an earlier append, appended when it only fits once the
      processed bytes are discarded: the discard moves the frame's head out
      of the buffer, the parser still accepts the frame, but its start now
      lies before offset 0 and it is never reported. */
  lemma StraddleLost(s: Rx, v0: ParserView, t: byte, d: seq<byte>, k: nat, reallocOk: bool)
    requires k < |d| < 0x1_0000 - FrameOverhead
    requires s.p == s.w && s.parser == Partial(v0, t, d, k) && 5 + k <= s.w
    requires s.w + (|d| - k) + 4 > s.size && (|d| - k) + 4 <= s.size
    ensures var c := Crc.Crc16(FrameHead(t, |d|) + d);
      var r := AppendSpec(s, (d[k..] + (CrcBytes(c) + [FrameTailLow])) + [FrameTailHigh], reallocOk);
      && r.emitted == s.emitted && r.parser == Initial()
      && r.p == r.w == (|d| - k) + 4 && r.size == s.size
  {
    var c := Crc.Crc16(FrameHead(t, |d|) + d);
    var rest := (d[k..] + (CrcBytes(c) + [FrameTailLow])) + [FrameTailHigh];
    AppendAfterDiscard(s, rest, reallocOk);
    AppendFits(Discard(s), rest, reallocOk);
    RestLost(Discard(s), v0, t, d, k);
  }

  /** The rest of a frame, written to an emptied buffer whose parser holds
      the frame's head and first `k` payload bytes, then scanned: the frame
      completes but is not reported. */
  lemma RestLost(u: Rx, v0: ParserView, t: byte, d: seq<byte>, k: nat)
    requires k < |d| < 0x1_0000 - FrameOverhead
    requires u.p == u.w == 0 && u.parser == Partial(v0, t, d, k) && (|d| - k) + 4 <= u.size
    ensures var c := Crc.Crc16(FrameHead(t, |d|) + d);
      var rest := (d[k..] + (CrcBytes(c) + [FrameTailLow])) + [FrameTailHigh];
      var x := Put(u, rest, |rest|);
      TryParse(x) == x.(p := x.w, parser := Initial())
  {
    var c := Crc.Crc16(FrameHead(t, |d|) + d);
    var init := d[k..] + (CrcBytes(c) + [FrameTailLow]);
    PutWindow(u, init + [FrameTailHigh]);
    SuffixToTailLow(v0, t, d, k);
    AcceptedCompletes(t, d);
    TryParseLost(Put(u, init + [FrameTailHigh], |init| + 1), init, FrameTailHigh, Accepted(t, d));
  }
}
