/** Properties of the receiver's scan and of appends that fit in the buffer:
    bytes that complete no frame are fed to the parser and reported as
    nothing, and bytes that end a frame which starts inside the buffer
    report that frame and empty the buffer. */
module ReceiverProofs {
  import opened Bytes
  import opened PktProtocol
  import opened ParserProofs
  import opened PktReceiver

  /** Scanning bytes that complete no frame only moves the parser: the scan
      from `p` is the scan from `q`, started where feeding [p, q) leaves the
      parser. */
  lemma {:induction false} ScanQuiet(buf: seq<byte>, p: nat, q: nat, v: ParserView, v1: ParserView, start: nat, cb: bool)
    requires Wf(v) && p <= q <= |buf|
    requires FeedAll(v, buf[p..q]).0 == v1 && FeedAll(v, buf[p..q]).1 == Falses(q - p)
    ensures ScanFrom(buf, p, v, start, cb) == ScanFrom(buf, q, v1, start, cb)
    decreases q - p
  {
    if p < q {
      var (v2, done) := Step(v, buf[p]);
      FeedOne(v, buf[p], buf[p + 1..q]);
      assert buf[p..q] == [buf[p]] + buf[p + 1..q];
      assert FeedAll(v, buf[p..q]).1[0] == done;
      assert Falses(q - p)[1..] == Falses(q - (p + 1));
      ScanQuiet(buf, p + 1, q, v2, v1, start, cb);
    } else {
      assert buf[p..q] == [];
    }
  }

  /** The bytes [p, w) of a buffer cut at w, when they are `init` and then
      `last`. */
  lemma WindowSplit(buf: seq<byte>, p: nat, w: nat, init: seq<byte>, last: byte)
    requires p <= w <= |buf| && buf[p..w] == init + [last]
    ensures p < w && buf[..w][p..w - 1] == init && buf[..w][w - 1] == last
  {
    assert |buf[p..w]| == |init| + 1;
    assert buf[..w][p..w - 1] == buf[p..w][..|init|];
    assert buf[..w][w - 1] == buf[p..w][|init|];
  }

  /** The iteration that sees a completion at `q - 1` when the frame's
      expected length reaches no further back than offset 0: the frame is
      reported (with a callback), the parser is reset and the unprocessed
      data starts at q. */
  lemma ScanFrameEnd(buf: seq<byte>, q: nat, v1: ParserView, start: nat, cb: bool)
    requires Wf(v1) && 1 <= q <= |buf| < 0x1_0000
    requires Step(v1, buf[q - 1]) == (v1, true) && ExpectFrameLen(v1.len) <= q
    ensures var r := ScanFrom(buf, q, Initial(), q, cb);
      ScanFrom(buf, q - 1, v1, start, cb)
      == r.(emitted := (if cb then [Frame(v1.ftype, v1.data)] else []) + r.emitted)
  {
    StepFrameEnd(buf, q - 1, v1, start, cb);
  }

  /** The step of ScanFrameEnd on its own: a completion whose frame lies
      inside the buffer resets the parser, moves unprocessed_start past the
      byte and reports the frame when there is a callback. */
  lemma StepFrameEnd(buf: seq<byte>, p: nat, v1: ParserView, start: nat, cb: bool)
    requires Wf(v1) && p < |buf| < 0x1_0000
    requires Step(v1, buf[p]) == (v1, true) && ExpectFrameLen(v1.len) <= p + 1
    ensures ScanStep(buf, p, v1, start, cb) == (Initial(), p + 1, if cb then [Frame(v1.ftype, v1.data)] else [])
  {
    BoundaryValidIff(p, |buf|, ExpectFrameLen(v1.len));
  }

  /** Scanning bytes [p, q) of which only the last completes a frame, with
      the parser at `v1` when that byte comes and the frame's expected length
      reaching no further back than offset 0: the frame is reported (with a
      callback), the parser is reset and the unprocessed data starts at q. */
  lemma {:induction false} ScanComplete(buf: seq<byte>, p: nat, q: nat, v: ParserView, v1: ParserView, start: nat, cb: bool)
    requires Wf(v) && p < q <= |buf| < 0x1_0000
    requires FeedAll(v, buf[p..q - 1]).0 == v1 && FeedAll(v, buf[p..q - 1]).1 == Falses(q - 1 - p)
    requires Step(v1, buf[q - 1]) == (v1, true) && ExpectFrameLen(v1.len) <= q
    ensures var r := ScanFrom(buf, q, Initial(), q, cb);
      ScanFrom(buf, p, v, start, cb)
      == r.(emitted := (if cb then [Frame(v1.ftype, v1.data)] else []) + r.emitted)
    decreases q - p
  {
    if p == q - 1 {
      assert buf[p..q - 1] == [];
      ScanFrameEnd(buf, q, v1, start, cb);
    } else {
      var (v2, done) := Step(v, buf[p]);
      FeedOne(v, buf[p], buf[p + 1..q - 1]);
      assert buf[p..q - 1] == [buf[p]] + buf[p + 1..q - 1];
      assert FeedAll(v, buf[p..q - 1]).1[0] == done;
      assert Falses(q - 1 - p)[1..] == Falses(q - 1 - (p + 1));
      ScanComplete(buf, p + 1, q, v2, v1, start, cb);
    }
  }

  /** ScanComplete for a stretch [p, q) taken as one piece that ends a
      frame at its last byte. */
  lemma ScanEndsFrame(buf: seq<byte>, p: nat, q: nat, v: ParserView, v1: ParserView, start: nat, cb: bool)
    requires p < q <= |buf| < 0x1_0000 && EndsFrame(v, buf[p..q], v1, q)
    ensures var r := ScanFrom(buf, q, Initial(), q, cb);
      ScanFrom(buf, p, v, start, cb)
      == r.(emitted := (if cb then [Frame(v1.ftype, v1.data)] else []) + r.emitted)
  {
    var a := buf[p..q];
    assert a[..|a| - 1] == buf[p..q - 1] && a[|a| - 1] == buf[q - 1];
    ScanComplete(buf, p, q, v, v1, start, cb);
  }

  /** An append that fits in the free space copies all of `data` and
      scans; the realloc outcome plays no part. */
  lemma AppendFits(s: Rx, data: seq<byte>, reallocOk: bool)
    requires |data| < 0x1_0000 && s.w + |data| <= s.size
    ensures AppendSpec(s, data, reallocOk) == TryParse(Put(s, data, |data|))
  {
  }

  /** The unprocessed bytes of `t` complete no frame and take the parser
      to `v1`. */
  predicate QuietWindow(t: Rx, data: seq<byte>, v1: ParserView) {
    t.buf[t.p..t.w] == data && FeedAll(t.parser, data).0 == v1 && FeedAll(t.parser, data).1 == Falses(|data|)
  }

  /** The unprocessed bytes of `t` are `init` and then `last`: `init`
      completes no frame and takes the parser to `v1`, and `last` completes
      a frame there whose expected length reaches no further back than
      offset 0. */
  predicate CompleteWindow(t: Rx, init: seq<byte>, last: byte, v1: ParserView) {
    && t.buf[t.p..t.w] == init + [last]
    && FeedAll(t.parser, init).0 == v1 && FeedAll(t.parser, init).1 == Falses(|init|)
    && Step(v1, last) == (v1, true) && ExpectFrameLen(v1.len) <= t.w
  }

  /** try_parse_frame over unprocessed bytes that complete no frame:
      nothing is reported, processed_pos reaches write_pos and the buffer
      stays as it is. */
  lemma TryParseQuiet(t: Rx, data: seq<byte>, v1: ParserView)
    requires QuietWindow(t, data, v1)
    ensures TryParse(t) == t.(p := t.w, parser := v1)
  {
    var bytes := t.buf[..t.w];
    assert bytes[t.p..t.w] == t.buf[t.p..t.w];
    ScanQuiet(bytes, t.p, t.w, t.parser, v1, 0, t.cb);
    assert ScanFrom(bytes, t.w, v1, 0, t.cb) == Scan(v1, 0, []);
    assert t.emitted + [] == t.emitted;
  }

  /** try_parse_frame over unprocessed bytes whose last one ends a frame
      starting inside the buffer: the frame is reported (with a callback),
      the parser is reset and write_pos and processed_pos return to 0. */
  lemma TryParseComplete(t: Rx, init: seq<byte>, last: byte, v1: ParserView)
    requires CompleteWindow(t, init, last, v1)
    ensures TryParse(t)
      == t.(w := 0, p := 0, parser := Initial(),
            emitted := t.emitted + if t.cb then [Frame(v1.ftype, v1.data)] else [])
  {
    var bytes := t.buf[..t.w];
    WindowSplit(t.buf, t.p, t.w, init, last);
    ScanComplete(bytes, t.p, t.w, t.parser, v1, 0, t.cb);
    var out := if t.cb then [Frame(v1.ftype, v1.data)] else [];
    assert ScanFrom(bytes, t.w, Initial(), t.w, t.cb) == Scan(Initial(), t.w, []);
    assert out + [] == out;
    assert t.buf[t.w..t.w] + t.buf[0..] == t.buf;
  }

  /** The bytes a fitting append leaves between the old and the new write
      positions are the appended bytes. */
  lemma PutWindow(s: Rx, data: seq<byte>)
    requires s.p == s.w && s.w + |data| <= s.size
    ensures var t := Put(s, data, |data|);
      t.buf[t.p..t.w] == data && t.parser == s.parser && t.p == s.w && t.w == s.w + |data|
  {
    assert data[..|data|] == data;
  }

  /** Writing bytes that complete no frame after a full scan, then
      scanning them. */
  lemma PutQuiet(s: Rx, data: seq<byte>, v1: ParserView)
    requires s.p == s.w && s.w + |data| <= s.size
    requires FeedAll(s.parser, data).0 == v1 && FeedAll(s.parser, data).1 == Falses(|data|)
    ensures var t := Put(s, data, |data|);
      TryParse(t) == t.(p := t.w, parser := v1)
  {
    PutWindow(s, data);
    TryParseQuiet(Put(s, data, |data|), data, v1);
  }

  /** Writing bytes that end a frame after a full scan, then scanning
      them. */
  lemma PutComplete(s: Rx, init: seq<byte>, last: byte, v1: ParserView)
    requires s.p == s.w && s.w + |init| + 1 <= s.size
    requires FeedAll(s.parser, init).0 == v1 && FeedAll(s.parser, init).1 == Falses(|init|)
    requires Step(v1, last) == (v1, true) && ExpectFrameLen(v1.len) <= s.w + |init| + 1
    ensures var t := Put(s, init + [last], |init| + 1);
      TryParse(t)
      == t.(w := 0, p := 0, parser := Initial(),
            emitted := s.emitted + if s.cb then [Frame(v1.ftype, v1.data)] else [])
  {
    var t := Put(s, init + [last], |init| + 1);
    PutWindow(s, init + [last]);
    TryParseComplete(t, init, last, v1);
  }

  /** An append that fits, to a receiver that has scanned everything, of
      bytes that complete no frame: nothing is reported, both positions
      move to the end of the new bytes, and the parser is where feeding the
      bytes leaves it. */
  lemma AppendQuiet(s: Rx, data: seq<byte>, reallocOk: bool, v1: ParserView)
    requires s.p == s.w && |data| < 0x1_0000 && s.w + |data| <= s.size
    requires FeedAll(s.parser, data).0 == v1 && FeedAll(s.parser, data).1 == Falses(|data|)
    ensures var t := Put(s, data, |data|);
      AppendSpec(s, data, reallocOk) == t.(p := t.w, parser := v1)
  {
    AppendFits(s, data, reallocOk);
    PutQuiet(s, data, v1);
  }

  /** An append that fits, to a receiver that has scanned everything, of
      bytes whose last completes a frame starting inside the buffer: the
      frame is reported (with a callback), the parser is reset, and the
      buffer is empty again. */
  lemma AppendComplete(s: Rx, init: seq<byte>, last: byte, reallocOk: bool, v1: ParserView)
    requires s.p == s.w && |init| + 1 < 0x1_0000 && s.w + |init| + 1 <= s.size
    requires FeedAll(s.parser, init).0 == v1 && FeedAll(s.parser, init).1 == Falses(|init|)
    requires Step(v1, last) == (v1, true) && ExpectFrameLen(v1.len) <= s.w + |init| + 1
    ensures var t := Put(s, init + [last], |init| + 1);
      AppendSpec(s, init + [last], reallocOk)
      == t.(w := 0, p := 0, parser := Initial(),
            emitted := s.emitted + if s.cb then [Frame(v1.ftype, v1.data)] else [])
  {
    AppendFits(s, init + [last], reallocOk);
    PutComplete(s, init, last, v1);
  }

  /** Scanning two stretches, [p, q1) and [q1, |buf|), each of which ends
      a frame at its last byte: both frames are reported in order (with a
      callback), the parser is reset and the unprocessed data starts at the
      end of the buffer. */
  lemma ScanTwo(buf: seq<byte>, p: nat, q1: nat, v: ParserView, v1: ParserView, v2: ParserView, start: nat, cb: bool)
    requires p < q1 < |buf| < 0x1_0000
    requires EndsFrame(v, buf[p..q1], v1, q1) && EndsFrame(Initial(), buf[q1..], v2, |buf|)
    ensures ScanFrom(buf, p, v, start, cb)
      == Scan(Initial(), |buf|, (if cb then [Frame(v1.ftype, v1.data)] else []) + (if cb then [Frame(v2.ftype, v2.data)] else []))
  {
    var out1 := if cb then [Frame(v1.ftype, v1.data)] else [];
    var out2 := if cb then [Frame(v2.ftype, v2.data)] else [];
    var last := ScanFrom(buf, |buf|, Initial(), |buf|, cb);
    assert last == Scan(Initial(), |buf|, []);
    assert ScanFrom(buf, q1, Initial(), q1, cb) == Scan(Initial(), |buf|, out2) by {
      assert buf[q1..|buf|] == buf[q1..];
      ScanEndsFrame(buf, q1, |buf|, Initial(), v2, q1, cb);
      assert out2 + [] == out2;
    }
    ScanEndsFrame(buf, p, q1, v, v1, start, cb);
  }

  /** The window [p, w) of `buf` is `a` followed by `b`: in the prefix of
      `buf` up to `w`, `a` sits at p and `b` right after it, up to the end. */
  lemma WindowPair(buf: seq<byte>, p: nat, w: nat, a: seq<byte>, b: seq<byte>)
    requires p <= w <= |buf| && buf[p..w] == a + b
    ensures var q1 := p + |a|;
      && q1 <= w && |buf[..w]| == w && buf[..w][p..q1] == a && buf[..w][q1..] == b
  {
    assert buf[p..w][..|a|] == a;
    assert buf[p..w][|a|..] == b;
  }

  /** `a`, fed to the parser at `v`, completes nothing before its last
      byte, and that byte completes a frame, the parser being at `v1`
      just before it; the frame's expected length fits in `reach` bytes,
      the position just after that last byte. */
  predicate EndsFrame(v: ParserView, a: seq<byte>, v1: ParserView, reach: int) {
    && Wf(v) && 1 <= |a|
    && FeedAll(v, a[..|a| - 1]).0 == v1 && FeedAll(v, a[..|a| - 1]).1 == Falses(|a| - 1)
    && Step(v1, a[|a| - 1]) == (v1, true) && ExpectFrameLen(v1.len) <= reach
  }

  /** The scan of try_parse_frame over unprocessed bytes that are two
      frames back to back: both are reported and the unprocessed data
      starts at write_pos. */
  lemma ScanWindowTwo(t: Rx, a: seq<byte>, b: seq<byte>, v1: ParserView, v2: ParserView)
    requires t.buf[t.p..t.w] == a + b
    requires EndsFrame(t.parser, a, v1, t.p + |a|) && EndsFrame(Initial(), b, v2, t.w)
    ensures ScanFrom(t.buf[..t.w], t.p, t.parser, 0, t.cb)
      == Scan(Initial(), t.w, (if t.cb then [Frame(v1.ftype, v1.data)] else []) + (if t.cb then [Frame(v2.ftype, v2.data)] else []))
  {
    WindowPair(t.buf, t.p, t.w, a, b);
    ScanTwo(t.buf[..t.w], t.p, t.p + |a|, t.parser, v1, v2, 0, t.cb);
  }

  /** Settling after a frame that ended at write_pos: the buffer is kept
      and both positions return to 0. */
  lemma SettleAll(u: Rx)
    requires u.p == u.w && 0 < u.w
    ensures Settle(u, u.w) == u.(w := 0, p := 0)
  {
    assert u.buf[u.w..u.w] + u.buf[0..] == u.buf;
  }

  /** try_parse_frame over unprocessed bytes that are two frames back to
      back, each starting inside the buffer: both are reported in order
      (with a callback), the parser is reset and write_pos and
      processed_pos return to 0. */
  lemma TryParseTwo(t: Rx, a: seq<byte>, b: seq<byte>, v1: ParserView, v2: ParserView)
    requires t.buf[t.p..t.w] == a + b
    requires EndsFrame(t.parser, a, v1, t.p + |a|) && EndsFrame(Initial(), b, v2, t.w)
    ensures TryParse(t)
      == t.(w := 0, p := 0, parser := Initial(),
            emitted := t.emitted + if t.cb then [Frame(v1.ftype, v1.data), Frame(v2.ftype, v2.data)] else [])
  {
    var out := (if t.cb then [Frame(v1.ftype, v1.data)] else []) + (if t.cb then [Frame(v2.ftype, v2.data)] else []);
    ScanWindowTwo(t, a, b, v1, v2);
    SettleAll(Scanned(t, Scan(Initial(), t.w, out)));
    assert out == if t.cb then [Frame(v1.ftype, v1.data), Frame(v2.ftype, v2.data)] else [];
  }

  /** Writing two frames back to back after a full scan, then scanning:
      both are reported in order and the buffer is empty again. */
  lemma PutTwo(s: Rx, a: seq<byte>, b: seq<byte>, v1: ParserView, v2: ParserView)
    requires s.p == s.w && s.w + |a| + |b| <= s.size
    requires EndsFrame(s.parser, a, v1, s.w + |a|) && EndsFrame(Initial(), b, v2, s.w + |a| + |b|)
    ensures var t := Put(s, a + b, |a| + |b|);
      TryParse(t)
      == t.(w := 0, p := 0, parser := Initial(),
            emitted := s.emitted + if s.cb then [Frame(v1.ftype, v1.data), Frame(v2.ftype, v2.data)] else [])
  {
    var t := Put(s, a + b, |a| + |b|);
    assert |a + b| == |a| + |b|;
    PutWindow(s, a + b);
    assert t.parser == s.parser && t.p == s.w && t.w == s.w + |a| + |b|;
    TryParseTwo(t, a, b, v1, v2);
  }

  /** An append that fits, to a receiver that has scanned everything, of
      two frames back to back: both are reported in order (with a
      callback), the parser is reset and the buffer is empty again. */
  lemma AppendTwoComplete(s: Rx, a: seq<byte>, b: seq<byte>, reallocOk: bool, v1: ParserView, v2: ParserView)
    requires s.p == s.w && s.w + |a| + |b| <= s.size
    requires EndsFrame(s.parser, a, v1, s.w + |a|) && EndsFrame(Initial(), b, v2, s.w + |a| + |b|)
    ensures var t := Put(s, a + b, |a| + |b|);
      AppendSpec(s, a + b, reallocOk)
      == t.(w := 0, p := 0, parser := Initial(),
            emitted := s.emitted + if s.cb then [Frame(v1.ftype, v1.data), Frame(v2.ftype, v2.data)] else [])
  {
    assert |a + b| == |a| + |b|;
    AppendFits(s, a + b, reallocOk);
    PutTwo(s, a, b, v1, v2);
  }

  /** Scanning a stretch [p, q1) that ends a frame at its last byte, then
      bytes [q1, |buf|) that complete nothing from a reset parser: the frame
      is reported (with a callback), the unprocessed data starts right after
      it and the parser is where those bytes take it. */
  lemma ScanFrameThenQuiet(buf: seq<byte>, p: nat, q1: nat, v: ParserView, v1: ParserView, v3: ParserView, start: nat, cb: bool)
    requires p < q1 <= |buf| < 0x1_0000
    requires EndsFrame(v, buf[p..q1], v1, q1)
    requires FeedAll(Initial(), buf[q1..]).0 == v3 && FeedAll(Initial(), buf[q1..]).1 == Falses(|buf| - q1)
    ensures ScanFrom(buf, p, v, start, cb) == Scan(v3, q1, if cb then [Frame(v1.ftype, v1.data)] else [])
  {
    var out := if cb then [Frame(v1.ftype, v1.data)] else [];
    assert ScanFrom(buf, q1, Initial(), q1, cb) == Scan(v3, q1, []) by {
      assert buf[q1..] == buf[q1..|buf|];
      ScanQuiet(buf, q1, |buf|, Initial(), v3, q1, cb);
    }
    ScanEndsFrame(buf, p, q1, v, v1, start, cb);
    assert out + [] == out;
  }

  /** The scan of try_parse_frame over unprocessed bytes that are a frame
      followed by bytes `c` that complete nothing: the frame is reported,
      the unprocessed data starts just after it and the parser has consumed
      `c`. */
  lemma ScanWindowRefeed(t: Rx, a: seq<byte>, c: seq<byte>, v1: ParserView, v3: ParserView)
    requires t.buf[t.p..t.w] == a + c && EndsFrame(t.parser, a, v1, t.p + |a|)
    requires FeedAll(Initial(), c).0 == v3 && FeedAll(Initial(), c).1 == Falses(|c|)
    ensures ScanFrom(t.buf[..t.w], t.p, t.parser, 0, t.cb)
      == Scan(v3, t.p + |a|, if t.cb then [Frame(v1.ftype, v1.data)] else [])
  {
    var buf := t.buf[..t.w];
    var q1 := t.p + |a|;
    WindowPair(t.buf, t.p, t.w, a, c);
    assert buf[t.p..q1] == a && buf[q1..] == c && |buf| - q1 == |c|;
    ScanFrameThenQuiet(buf, t.p, q1, t.parser, v1, v3, 0, t.cb);
  }

  /** try_parse_frame over unprocessed bytes that are a frame starting
      inside the buffer followed by bytes `c` that complete nothing: the
      frame is reported (with a callback) and `c` moves to offset 0 with
      processed_pos 0, although the parser, reset after the frame, has
      already consumed `c`. The next scan feeds `c` to it a second time. */
  lemma TryParseRefeeds(t: Rx, a: seq<byte>, c: seq<byte>, v1: ParserView, v3: ParserView)
    requires t.buf[t.p..t.w] == a + c && EndsFrame(t.parser, a, v1, t.p + |a|)
    requires FeedAll(Initial(), c).0 == v3 && FeedAll(Initial(), c).1 == Falses(|c|)
    ensures var r := TryParse(t);
      && r.w == |c| && r.p == 0 && r.buf[..|c|] == c && r.parser == v3
      && r.emitted == t.emitted + (if t.cb then [Frame(v1.ftype, v1.data)] else [])
  {
    var q1 := t.p + |a|;
    ScanWindowRefeed(t, a, c, v1, v3);
    SettleRefeeds(t);
    assert t.buf[q1..t.w] == c by {
      assert t.buf[t.p..t.w][|a|..] == c;
    }
  }

  /** Writing a frame and then bytes `c` that complete nothing after a
      full scan, then scanning: the frame is reported and `c` moves to
      offset 0, to be fed to the parser again. */
  lemma PutRefeeds(s: Rx, a: seq<byte>, c: seq<byte>, v1: ParserView, v3: ParserView)
    requires s.p == s.w && s.w + |a| + |c| <= s.size && EndsFrame(s.parser, a, v1, s.w + |a|)
    requires FeedAll(Initial(), c).0 == v3 && FeedAll(Initial(), c).1 == Falses(|c|)
    ensures var r := TryParse(Put(s, a + c, |a + c|));
      && r.w == |c| && r.p == 0 && r.buf[..|c|] == c && r.parser == v3
      && r.emitted == s.emitted + (if s.cb then [Frame(v1.ftype, v1.data)] else [])
  {
    var t := Put(s, a + c, |a + c|);
    PutWindow(s, a + c);
    TryParseRefeeds(t, a, c, v1, v3);
  }

  /** An append that fits, to a receiver that has scanned everything, of a
      frame and then bytes `c` that complete nothing from a reset parser:
      the frame is reported (with a callback) and `c` stays at offset 0
      with processed_pos 0, while the parser already stands where `c` takes
      it; the next scan feeds `c` to it a second time. */
  lemma AppendRefeeds(s: Rx, a: seq<byte>, c: seq<byte>, reallocOk: bool, v1: ParserView, v3: ParserView)
    requires s.p == s.w && s.w + |a| + |c| <= s.size && EndsFrame(s.parser, a, v1, s.w + |a|)
    requires FeedAll(Initial(), c).0 == v3 && FeedAll(Initial(), c).1 == Falses(|c|)
    ensures var r := AppendSpec(s, a + c, reallocOk);
      && r.w == |c| && r.p == 0 && r.buf[..|c|] == c && r.parser == v3
      && r.emitted == s.emitted + (if s.cb then [Frame(v1.ftype, v1.data)] else [])
      && r.size == s.size && r.cb == s.cb
  {
    AppendFits(s, a + c, reallocOk);
    PutRefeeds(s, a, c, v1, v3);
  }

  /** The iteration that sees a completion at `q - 1` of a frame whose
      expected length reaches back past offset 0: nothing is reported, the
      parser is reset and unprocessed_start stays where it was. */
  lemma ScanLost(buf: seq<byte>, q: nat, v1: ParserView, start: nat, cb: bool)
    requires Wf(v1) && 1 <= q <= |buf| < 0x1_0000
    requires Step(v1, buf[q - 1]) == (v1, true) && ExpectFrameLen(v1.len) > q
    ensures ScanFrom(buf, q - 1, v1, start, cb) == ScanFrom(buf, q, Initial(), start, cb)
  {
    BoundaryValidIff(q - 1, |buf|, ExpectFrameLen(v1.len));
    assert ScanStep(buf, q - 1, v1, start, cb) == (Initial(), start, []);
  }

  /** Scanning bytes [p, q) of which only the last completes a frame, with
      the parser at `v1` when that byte comes and the frame's expected
      length reaching back past offset 0: nothing is reported and the
      parser is reset. */
  lemma {:induction false} ScanIncomplete(buf: seq<byte>, p: nat, q: nat, v: ParserView, v1: ParserView, start: nat, cb: bool)
    requires Wf(v) && p < q <= |buf| < 0x1_0000
    requires FeedAll(v, buf[p..q - 1]).0 == v1 && FeedAll(v, buf[p..q - 1]).1 == Falses(q - 1 - p)
    requires Step(v1, buf[q - 1]) == (v1, true) && ExpectFrameLen(v1.len) > q
    ensures ScanFrom(buf, p, v, start, cb) == ScanFrom(buf, q, Initial(), start, cb)
    decreases q - p
  {
    if p == q - 1 {
      assert buf[p..q - 1] == [];
      ScanLost(buf, q, v1, start, cb);
    } else {
      var (v2, done) := Step(v, buf[p]);
      FeedOne(v, buf[p], buf[p + 1..q - 1]);
      assert buf[p..q - 1] == [buf[p]] + buf[p + 1..q - 1];
      assert FeedAll(v, buf[p..q - 1]).1[0] == done;
      assert Falses(q - 1 - p)[1..] == Falses(q - 1 - (p + 1));
      ScanIncomplete(buf, p + 1, q, v2, v1, start, cb);
    }
  }

  /** The unprocessed bytes of `t` are `init` and then `last`, and `last`
      completes a frame whose expected length is more than write_pos: the
      frame began in bytes that are no longer in the buffer. */
  predicate LostWindow(t: Rx, init: seq<byte>, last: byte, v1: ParserView) {
    && t.buf[t.p..t.w] == init + [last]
    && FeedAll(t.parser, init).0 == v1 && FeedAll(t.parser, init).1 == Falses(|init|)
    && Step(v1, last) == (v1, true) && ExpectFrameLen(v1.len) > t.w
  }

  /** try_parse_frame over unprocessed bytes whose last one completes a
      frame that began before offset 0: the parser accepts it, but the
      boundary check rejects it, so nothing is reported and the buffer is
      not compacted. */
  lemma TryParseLost(t: Rx, init: seq<byte>, last: byte, v1: ParserView)
    requires LostWindow(t, init, last, v1)
    ensures TryParse(t) == t.(p := t.w, parser := Initial())
  {
    var bytes := t.buf[..t.w];
    WindowSplit(t.buf, t.p, t.w, init, last);
    ScanIncomplete(bytes, t.p, t.w, t.parser, v1, 0, t.cb);
    assert ScanFrom(bytes, t.w, Initial(), 0, t.cb) == Scan(Initial(), 0, []);
    assert t.emitted + [] == t.emitted;
  }

  /** The end of try_parse_frame. When a frame was reported and bytes
      follow it, those bytes move to offset 0 and processed_pos returns to
      0, although the parser has already consumed them: the next scan feeds
      them to the parser a second time. When no frame was reported, the
      buffer and write_pos stay as they are. */
  lemma SettleRefeeds(s: Rx)
    ensures var sc := ScanFrom(s.buf[..s.w], s.p, s.parser, 0, s.cb);
      var r := TryParse(s);
      && r.parser == sc.parser && r.emitted == s.emitted + sc.emitted
      && (sc.start == 0 ==> r.buf == s.buf && r.w == r.p == s.w)
      && (sc.start > 0 ==> r.p == 0 && r.w == s.w - sc.start && r.buf[..r.w] == s.buf[sc.start..s.w])
  {
  }

  /** An append whose data does not fit even after one doubling, to a
      receiver with nothing processed: the buffer doubles and the second
      space check clips the data to the new free space. */
  lemma ClipAfterGrowth(s: Rx, data: seq<byte>)
    requires |data| < 0x1_0000 && s.p == 0 && 2 * s.size < 0x1_0000 && s.w + |data| > 2 * s.size
    ensures AppendSpec(s, data, true) == TryParse(Put(Grow(s), data, 2 * s.size - s.w))
  {
  }
}
