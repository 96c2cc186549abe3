/** The streaming receiver of `pkt_protocol_buf.c`: a byte buffer with a
    write position and a processed position, and an embedded parser. Each
    append makes room (discarding processed bytes, then doubling the
    buffer), copies what fits, and scans the unprocessed bytes with the
    parser, reporting complete frames whose start lies inside the buffer.

    The receiver is the class `Receiver`; its state as a value is `Rx`, and
    each method is proved against the function on `Rx` that states its
    effect (`TryParse`, `AppendSpec`). The callback is a log: a frame the
    C code passes to the callback is appended to `emitted`. */
module PktReceiver {
  import opened Bytes
  import opened PktProtocol

  /** What the callback receives: the frame type and its payload. */
  datatype Frame = Frame(ftype: byte, data: seq<byte>)

  /** One more than the largest size_t of a 64-bit target. */
  const SizeMod: int := 0x1_0000_0000_0000_0000

  /** expect_frame_len: header, payload, CRC and tail, computed in uint16. */
  function ExpectFrameLen(len: u16): (r: u16)
    ensures len <= 0x1_0000 - FrameOverhead - 1 ==> r == len + FrameOverhead
  {
    (HeaderSize + len + 2 * 2) % 0x1_0000
  }

  /** valid_frame_boundary: the frame's start and end, computed in size_t,
      both at most write_pos. */
  predicate BoundaryValid(pos: nat, w: nat, frameLen: nat) {
    var startPos := (pos + 1 - frameLen) % SizeMod;
    var endPos := pos + 1;
    startPos <= w && endPos <= w
  }

  /** For a byte inside the written part of the buffer the boundary test
      says exactly that the frame does not start before offset 0: a start
      below 0 wraps to a huge size_t. */
  lemma BoundaryValidIff(pos: nat, w: nat, frameLen: nat)
    requires pos < w < 0x1_0000 && frameLen < 0x1_0000
    ensures BoundaryValid(pos, w, frameLen) <==> frameLen <= pos + 1
  {
    if frameLen > pos + 1 {
      assert (pos + 1 - frameLen) % SizeMod == pos + 1 - frameLen + SizeMod;
    } else {
      assert (pos + 1 - frameLen) % SizeMod == pos + 1 - frameLen;
    }
  }

  /** The outcome of a scan: the parser, the start of the unprocessed data
      (unprocessed_start, 0 when no frame was reported) and the frames
      reported. */
  datatype Scan = Scan(parser: ParserView, start: nat, emitted: seq<Frame>)

  /** One iteration of the loop of try_parse_frame on the byte at `p`: the
      parser afterwards, the new unprocessed_start and the frames reported
      (none or one). On a completion the frame is reported when its
      boundary is valid and there is a callback; valid or not, the parser is
      reset and processed_pos moves on by one. */
  function ScanStep(buf: seq<byte>, p: nat, v: ParserView, start: nat, cb: bool): (r: (ParserView, nat, seq<Frame>))
    requires Wf(v) && p < |buf|
    ensures Wf(r.0) && (r.1 == start || r.1 == p + 1) && |r.2| <= 1
    ensures !cb ==> r.2 == []
  {
    var (v1, done) := Step(v, buf[p]);
    if !done then (v1, start, [])
    else
      var valid := BoundaryValid(p, |buf|, ExpectFrameLen(v1.len));
      (Initial(), if valid then p + 1 else start, if valid && cb then [Frame(v1.ftype, v1.data)] else [])
  }

  /** The loop of try_parse_frame from processed position `p` to the end of
      the written bytes `buf` (the buffer up to write_pos): every byte is
      fed to the parser once, in order. */
  function ScanFrom(buf: seq<byte>, p: nat, v: ParserView, start: nat, cb: bool): (r: Scan)
    requires Wf(v) && p <= |buf|
    ensures Wf(r.parser)
    ensures r.start == start || p < r.start <= |buf|
    ensures |r.emitted| <= |buf| - p
    ensures !cb ==> r.emitted == []
    decreases |buf| - p
  {
    if p == |buf| then Scan(v, start, [])
    else
      var (v1, start1, out) := ScanStep(buf, p, v, start, cb);
      var r := ScanFrom(buf, p + 1, v1, start1, cb);
      r.(emitted := out + r.emitted)
  }

  /** The receiver as a value: the whole buffer, its size, the write and
      processed positions, the parser, whether a callback is set, and the
      frames reported so far. */
  datatype RxState = RxState(buf: seq<byte>, size: u16, w: u16, p: u16, parser: ParserView, cb: bool, emitted: seq<Frame>)

  /** processed_pos <= write_pos <= buffer_size, and the buffer holds
      buffer_size bytes. */
  predicate RxWf(s: RxState) {
    |s.buf| == s.size && s.p <= s.w <= s.size && Wf(s.parser)
  }

  /** The receiver values that keep the invariant. */
  type Rx = s: RxState | RxWf(s) witness RxState([], 0, 0, 0, Initial(), false, [])

  /** The end of try_parse_frame, once the scan has reached write_pos: if a
      frame was reported, the bytes after it move to the front, write_pos
      becomes their count and processed_pos 0. */
  function Settle(s: Rx, start: nat): (r: Rx)
    requires s.p == s.w && start <= s.w
    ensures r.size == s.size && r.cb == s.cb && r.emitted == s.emitted && r.parser == s.parser
  {
    if start > 0 then
      var remaining := s.w - start;
      s.(buf := s.buf[start..s.w] + s.buf[remaining..], w := remaining, p := 0)
    else s
  }

  /** try_parse_frame: scan [p, w), then settle. */
  function TryParse(s: Rx): (r: Rx)
    ensures r.size == s.size && r.cb == s.cb
    ensures |s.emitted| <= |r.emitted| && r.emitted[..|s.emitted|] == s.emitted
  {
    var sc := ScanFrom(s.buf[..s.w], s.p, s.parser, 0, s.cb);
    assert (s.emitted + sc.emitted)[..|s.emitted|] == s.emitted;
    Settle(Scanned(s, sc), sc.start)
  }

  /** The receiver once the loop of try_parse_frame has run with outcome
      `sc`: processed_pos at write_pos, the parser and the log as the scan
      left them. */
  function Scanned(s: Rx, sc: Scan): (r: Rx)
    requires Wf(sc.parser)
    ensures r.p == r.w == s.w && r.buf == s.buf
  {
    s.(p := s.w, parser := sc.parser, emitted := s.emitted + sc.emitted)
  }

  /** The first step of an append that does not fit: discard the processed
      bytes [0, p) by moving [p, w) to the front. */
  function Discard(s: Rx): (r: Rx)
    ensures r.w == s.w - s.p && r.p == 0
  {
    var remaining := s.w - s.p;
    s.(buf := s.buf[s.p..s.w] + s.buf[remaining..], w := remaining, p := 0)
  }

  /** Make room for `n` bytes by discarding: only when they do not fit and
      something has been processed. */
  function Room(s: Rx, n: nat): (r: Rx)
    ensures r.size == s.size && r.cb == s.cb && r.emitted == s.emitted
    ensures r.w + n > r.size <==> s.w - s.p + n > s.size
  {
    if s.w + n > s.size && s.p > 0 then Discard(s) else s
  }

  /** realloc to twice the size: the old bytes are kept; the new ones are
      modelled as zeros. */
  function Grow(s: Rx): (r: Rx)
    requires 2 * s.size < 0x1_0000
    ensures r.size == 2 * s.size && r.w == s.w && r.p == s.p
    ensures r.buf[..s.size] == s.buf
  {
    s.(buf := s.buf + Zeros(s.size), size := 2 * s.size)
  }

  /** memcpy of the first `n` bytes of `data` at write_pos, then
      write_pos += n. */
  function Put(s: Rx, data: seq<byte>, n: nat): (r: Rx)
    requires n <= |data| && s.w + n <= s.size
    ensures r.w == s.w + n && r.p == s.p && r.size == s.size
    ensures r.parser == s.parser && r.cb == s.cb && r.emitted == s.emitted
  {
    s.(buf := s.buf[..s.w] + data[..n] + s.buf[s.w + n..], w := s.w + n)
  }

  /** realloc failed: write what fits, scan, stop. */
  function PartialAppend(s: Rx, data: seq<byte>): (r: Rx)
    requires s.w + |data| > s.size
    ensures r.cb == s.cb && r.size == s.size
  {
    var avail := s.size - s.w;
    TryParse(if avail > 0 then Put(s, data, avail) else s)
  }

  /** The second space check: clip the data to the free space; with no free
      space at all return without scanning, otherwise write and scan. */
  function ClipAppend(s: Rx, data: seq<byte>): (r: Rx)
    ensures r.cb == s.cb && r.size == s.size
  {
    var avail := s.size - s.w;
    if avail < |data| && avail == 0 then s
    else TryParse(Put(s, data, if avail < |data| then avail else |data|))
  }

  /** The size realloc is asked for as written: buffer_size * 2 stored in
      a uint16, which wraps once buffer_size reaches 0x8000. */
  function GrownSizeAsWritten(size: u16): (r: u16)
  {
    (2 * size) % 0x1_0000
  }

  /** As written, growing a buffer of 0x8000 bytes or more asks realloc for
      fewer bytes than the buffer already holds, and the memcpy that
      follows writes past the end of the new buffer. */
  lemma GrowthWraps(size: u16)
    requires size >= 0x8000
    ensures GrownSizeAsWritten(size) < size
    ensures GrownSizeAsWritten(0x8000) == 0
  {
  }

  /** The doubling this model performs: only when buffer_size * 2 fits in a
      uint16; otherwise the append takes the path of a failed realloc. */
  predicate CanGrow(s: Rx, reallocOk: bool)
    ensures CanGrow(s, reallocOk) ==> GrownSizeAsWritten(s.size) == 2 * s.size
  {
    reallocOk && 2 * s.size < 0x1_0000
  }

  /** protocol_receiver_append(data, |data|) with `reallocOk` the outcome
      of realloc: the receiver value afterwards. */
  function AppendSpec(s: Rx, data: seq<byte>, reallocOk: bool): (r: Rx)
    requires |data| < 0x1_0000
    ensures r.cb == s.cb && (r.size == s.size || r.size == 2 * s.size)
  {
    var s1 := Room(s, |data|);
    if s1.w + |data| > s1.size then
      if CanGrow(s1, reallocOk) then ClipAppend(Grow(s1), data) else PartialAppend(s1, data)
    else ClipAppend(s1, data)
  }

  /** What protocol_receiver_init leaves: an empty buffer of `size` bytes
      (malloc's contents modelled as zeros) and a parser waiting for a
      header. */
  function Fresh(size: u16, cb: bool): (r: Rx)
    ensures r.w == 0 && r.p == 0 && r.emitted == []
  {
    RxState(Zeros(size), size, 0, 0, Initial(), cb, [])
  }

  /** protocol_receiver. The embedded protocol_parser_t is a value field:
      protocol_parse_byte on it is `Step` (which `Parser.ParseByte` is
      proved to implement) and protocol_parser_reset makes it `Initial()`. */
  class Receiver {
    var buffer: array?<byte>
    var bufferSize: u16
    var writePos: u16
    var processedPos: u16
    var parser: ParserView
    var hasCallback: bool
    var emitted: seq<Frame>

    ghost predicate Valid()
      reads this
    {
      && (buffer != null ==> buffer.Length == bufferSize)
      && (buffer == null ==> bufferSize == 0 && writePos == 0 && processedPos == 0)
      && processedPos <= writePos <= bufferSize
      && Wf(parser)
    }

    ghost function View(): RxState
      reads this, buffer
    {
      RxState(if buffer == null then [] else buffer[..], bufferSize, writePos, processedPos, parser, hasCallback, emitted)
    }

    /** protocol_receiver_init(receiver, bufSize, callback), with malloc
        succeeding. The parser starts as protocol_parser_init leaves it. */
    constructor (bufSize: u16, hasCallback: bool)
      ensures Valid() && buffer != null && fresh(buffer)
      ensures View() == Fresh(bufSize, hasCallback)
    {
      buffer := new byte[bufSize](_ => 0);
      bufferSize := bufSize;
      writePos := 0;
      processedPos := 0;
      parser := Initial();
      this.hasCallback := hasCallback;
      emitted := [];
      new;
      assert buffer[..] == Zeros(bufSize);
    }

    /** protocol_receiver_destroy: the buffer is released and the sizes and
        positions are zeroed; the parser is left as it is. */
    method Destroy()
      requires Valid()
      modifies this
      ensures Valid()
      ensures buffer == null && bufferSize == 0 && writePos == 0 && processedPos == 0
      ensures parser == old(parser) && emitted == old(emitted) && hasCallback == old(hasCallback)
    {
      buffer := null;
      bufferSize := 0;
      processedPos := 0;
      writePos := 0;
    }

    /** The completion branch of the loop of try_parse_frame: check the
        boundary, report the frame, reset the parser. */
    method Completed(start: nat) returns (next: nat, out: seq<Frame>)
      requires Valid() && buffer != null && processedPos < writePos
      modifies this
      ensures Valid() && buffer == old(buffer)
      ensures writePos == old(writePos) && bufferSize == old(bufferSize) && hasCallback == old(hasCallback)
      ensures processedPos == old(processedPos) + 1
      ensures parser == Initial() && emitted == old(emitted) + out
      ensures var valid := BoundaryValid(old(processedPos), writePos, ExpectFrameLen(old(parser.len)));
        && next == (if valid then processedPos else start)
        && out == if valid && hasCallback then [Frame(old(parser.ftype), old(parser.data))] else []
    {
      var frameLen := ExpectFrameLen(parser.len);
      var frameStart := (processedPos + 1 - frameLen) % SizeMod;
      var frameEnd := processedPos + 1;
      next := start;
      out := [];
      if frameStart <= writePos && frameEnd <= writePos {
        if hasCallback {
          out := [Frame(parser.ftype, parser.data)];
          emitted := emitted + out;
        }
        processedPos := frameEnd;
        next := processedPos;
      } else {
        processedPos := processedPos + 1;
      }
      parser := Initial();
    }

    /** One iteration of the loop of try_parse_frame. */
    method ScanOne(start: nat) returns (next: nat, out: seq<Frame>)
      requires Valid() && buffer != null && processedPos < writePos
      modifies this
      ensures Valid() && buffer == old(buffer)
      ensures writePos == old(writePos) && bufferSize == old(bufferSize) && hasCallback == old(hasCallback)
      ensures processedPos == old(processedPos) + 1 && emitted == old(emitted) + out
      ensures (parser, next, out) == ScanStep(buffer[..writePos], old(processedPos), old(parser), start, hasCallback)
    {
      var b := buffer[processedPos];
      var step := Step(parser, b);
      parser := step.0;
      if step.1 {
        next, out := Completed(start);
      } else {
        processedPos := processedPos + 1;
        next, out := start, [];
      }
    }

    /** The loop of try_parse_frame: every byte from processed_pos to
        write_pos is fed to the parser once, in order. */
    method ScanBytes() returns (start: nat)
      requires Valid() && buffer != null
      modifies this
      ensures Valid() && buffer == old(buffer)
      ensures writePos == old(writePos) && bufferSize == old(bufferSize) && hasCallback == old(hasCallback)
      ensures var sc := ScanFrom(old(View()).buf[..writePos], old(processedPos), old(parser), 0, hasCallback);
        View() == Scanned(old(View()), sc) && start == sc.start
    {
      ghost var bytes := buffer[..writePos];
      ghost var sc := ScanFrom(bytes, processedPos, parser, 0, hasCallback);
      ghost var whole := ScanAfter(bytes, processedPos, parser, 0, hasCallback, emitted);
      start := 0;
      while processedPos < writePos
        invariant Valid() && buffer == old(buffer)
        invariant writePos == old(writePos) && bufferSize == old(bufferSize) && hasCallback == old(hasCallback)
        invariant old(processedPos) <= processedPos <= writePos && start <= writePos
        invariant buffer[..writePos] == bytes
        invariant whole == ScanAfter(bytes, processedPos, parser, start, hasCallback, emitted)
        decreases writePos - processedPos
      {
        ghost var p0, v0, s0, e0 := processedPos, parser, start, emitted;
        var f;
        start, f := ScanOne(start);
        ScanUnfold(bytes, p0, v0, s0, hasCallback, e0, parser, start, f);
      }
    }

    /** try_parse_frame. */
    method TryParseFrame()
      requires Valid() && buffer != null
      modifies this, buffer
      ensures Valid() && buffer == old(buffer)
      ensures View() == TryParse(old(View()))
    {
      var start := ScanBytes();
      SettleBuffer(start);
    }

    /** The end of try_parse_frame: move the unprocessed bytes to the front
        when a frame was reported. */
    method SettleBuffer(start: nat)
      requires Valid() && buffer != null && processedPos == writePos && start <= writePos
      modifies this, buffer
      ensures Valid() && buffer == old(buffer)
      ensures View() == Settle(old(View()), start)
    {
      if start > 0 {
        var remaining := writePos - start;
        MoveToFront(buffer, start, remaining);
        writePos := remaining;
        processedPos := 0;
      }
    }

    /** The first space check of protocol_receiver_append. */
    method DiscardProcessed(len: nat)
      requires Valid() && buffer != null
      modifies this, buffer
      ensures Valid() && buffer == old(buffer)
      ensures View() == Room(old(View()), len)
    {
      if writePos + len > bufferSize && processedPos > 0 {
        var remaining := writePos - processedPos;
        MoveToFront(buffer, processedPos, remaining);
        writePos := remaining;
        processedPos := 0;
      }
    }

    /** realloc succeeded: the buffer doubles, its bytes kept. */
    method GrowBuffer()
      requires Valid() && buffer != null && 2 * bufferSize < 0x1_0000
      modifies this
      ensures Valid() && buffer != null && fresh(buffer)
      ensures View() == Grow(old(View()))
    {
      var newSize := (bufferSize * 2) % 0x1_0000;
      var grown := new byte[newSize](_ => 0);
      CopyInto(grown, 0, buffer[..]);
      buffer := grown;
      bufferSize := newSize;
    }

    /** memcpy(buffer + write_pos, data, n); write_pos += n. */
    method WriteData(data: seq<byte>, n: nat)
      requires Valid() && buffer != null && n <= |data| && writePos + n <= bufferSize
      modifies this, buffer
      ensures Valid() && buffer == old(buffer)
      ensures View() == Put(old(View()), data, n)
    {
      CopyInto(buffer, writePos, data[..n]);
      writePos := writePos + n;
    }

    /** The copy and the scan that end an append. */
    method WriteAndScan(data: seq<byte>, n: nat)
      requires Valid() && buffer != null && n <= |data| && writePos + n <= bufferSize
      modifies this, buffer
      ensures Valid() && buffer == old(buffer)
      ensures View() == TryParse(Put(old(View()), data, n))
    {
      WriteData(data, n);
      TryParseFrame();
    }

    /** realloc failed: write the first `buffer_size - write_pos` bytes of
        `data`, scan, and return. */
    method PartialWrite(data: seq<byte>)
      requires Valid() && buffer != null && writePos + |data| > bufferSize
      modifies this, buffer
      ensures Valid() && buffer == old(buffer)
      ensures View() == PartialAppend(old(View()), data)
    {
      var avail := bufferSize - writePos;
      if avail > 0 {
        WriteAndScan(data, avail);
      } else {
        TryParseFrame();
      }
    }

    /** The second space check, the copy and the scan. */
    method ClippedWrite(data: seq<byte>)
      requires Valid() && buffer != null
      modifies this, buffer
      ensures Valid() && buffer == old(buffer)
      ensures View() == ClipAppend(old(View()), data)
    {
      var len := |data|;
      var avail := bufferSize - writePos;
      if avail < len {
        len := avail;
        if len == 0 {
          assert ClipAppend(View(), data) == View();
          return;
        }
      }
      assert len == if avail < |data| then avail else |data|;
      WriteAndScan(data, len);
    }

    /** protocol_receiver_append(data, |data|); `reallocOk` is whether
        realloc succeeds when the buffer must grow. */
    method Append(data: seq<byte>, reallocOk: bool)
      requires Valid() && buffer != null && |data| < 0x1_0000
      modifies this, buffer
      ensures Valid() && buffer != null && (buffer == old(buffer) || fresh(buffer))
      ensures View() == AppendSpec(old(View()), data, reallocOk)
    {
      DiscardProcessed(|data|);
      if writePos + |data| > bufferSize {
        if !reallocOk || 2 * bufferSize >= 0x1_0000 {
          PartialWrite(data);
          return;
        }
        GrowBuffer();
      }
      ClippedWrite(data);
    }
  }

  /** The scan from `p`, after the frames `out` already reported. */
  function ScanAfter(buf: seq<byte>, p: nat, v: ParserView, start: nat, cb: bool, out: seq<Frame>): (r: Scan)
    requires Wf(v) && p <= |buf|
    ensures |out| <= |r.emitted| && r.emitted[..|out|] == out
  {
    var r := ScanFrom(buf, p, v, start, cb);
    r.(emitted := out + r.emitted)
  }

  /** One iteration of the scan, seen from the whole scan: the frames
      reported so far, then this iteration's, then the rest. */
  lemma ScanUnfold(buf: seq<byte>, p: nat, v: ParserView, start: nat, cb: bool, out: seq<Frame>,
                   v1: ParserView, start1: nat, f: seq<Frame>)
    requires Wf(v) && p < |buf| && (v1, start1, f) == ScanStep(buf, p, v, start, cb)
    ensures Wf(v1)
    ensures ScanAfter(buf, p, v, start, cb, out) == ScanAfter(buf, p + 1, v1, start1, cb, out + f)
  {
    var r1 := ScanFrom(buf, p + 1, v1, start1, cb);
    assert out + (f + r1.emitted) == (out + f) + r1.emitted;
  }
}
