/** Properties of the byte parser `PktProtocol.Step` over whole byte
    streams: a frame built by `FrameBytes` is recognised exactly at its last
    byte with its type and payload, the length-0 frame is never recognised,
    and a repeated first header byte loses synchronisation.

    Byte sequences are written as right-nested concatenations
    (`[a] + ([b] + rest)`), the shape `FeedOne` peels one byte at a time;
    the proofs stay much cheaper for the solver in that form than with
    flat displays. */
module ParserProofs {
  import opened Bytes
  import opened PktProtocol
  import Crc

  /** `n` calls that each returned 0. */
  function Falses(n: nat): (r: seq<bool>)
    ensures |r| == n && forall i :: 0 <= i < n ==> !r[i]
  {
    seq(n, _ => false)
  }

  /** Feeding one byte and then the rest. */
  lemma FeedOne(v: ParserView, b: byte, rest: seq<byte>)
    requires Wf(v)
    ensures FeedAll(v, [b] + rest).0 == FeedAll(Step(v, b).0, rest).0
    ensures FeedAll(v, [b] + rest).1 == [Step(v, b).1] + FeedAll(Step(v, b).0, rest).1
  {
    assert ([b] + rest)[0] == b;
    assert ([b] + rest)[1..] == rest;
  }

  /** Feeding A ++ B is feeding A, then feeding B to where A left the
      parser; the results are those of A followed by those of B. */
  lemma {:induction false} FeedAllAppend(v: ParserView, a: seq<byte>, b: seq<byte>)
    requires Wf(v)
    ensures FeedAll(v, a + b).0 == FeedAll(FeedAll(v, a).0, b).0
    ensures FeedAll(v, a + b).1 == FeedAll(v, a).1 + FeedAll(FeedAll(v, a).0, b).1
    decreases |a|
  {
    if a == [] {
      assert a + b == b;
    } else {
      assert a + b == [a[0]] + (a[1..] + b);
      assert a == [a[0]] + a[1..];
      FeedOne(v, a[0], a[1..] + b);
      FeedOne(v, a[0], a[1..]);
      FeedAllAppend(Step(v, a[0]).0, a[1..], b);
    }
  }

  /** Feeding `s` and then one more byte `b`: the step on `b` from where
      `s` left the parser, its result appended to those of `s`. */
  lemma FeedSnoc(v: ParserView, s: seq<byte>, b: byte)
    requires Wf(v)
    ensures var (vs, os) := FeedAll(v, s);
      FeedAll(v, s + [b]) == (Step(vs, b).0, os + [Step(vs, b).1])
  {
    var (vs, os) := FeedAll(v, s);
    var (v1, done) := Step(vs, b);
    FeedOne(vs, b, []);
    assert [b] + [] == [b];
    assert FeedAll(v1, []) == (v1, []);
    assert [done] + [] == [done];
    Compose(v, s, [b], vs, os, v1, [done]);
  }

  /** The same for a prefix of a stream grown by its next byte. */
  lemma FeedPrefix(v: ParserView, bytes: seq<byte>, i: nat)
    requires Wf(v) && i < |bytes|
    ensures var (vs, os) := FeedAll(v, bytes[..i]);
      FeedAll(v, bytes[..i + 1]) == (Step(vs, bytes[i]).0, os + [Step(vs, bytes[i]).1])
  {
    assert bytes[..i + 1] == bytes[..i] + [bytes[i]];
    FeedSnoc(v, bytes[..i], bytes[i]);
  }

  /** Two runs one after the other are one run over the joined bytes. */
  lemma Compose(v: ParserView, a: seq<byte>, b: seq<byte>, va: ParserView, oa: seq<bool>, vb: ParserView, ob: seq<bool>)
    requires Wf(v) && FeedAll(v, a) == (va, oa) && FeedAll(va, b) == (vb, ob)
    ensures FeedAll(v, a + b) == (vb, oa + ob)
  {
    FeedAllAppend(v, a, b);
  }

  /** Feeding `b` then `rest` when `b` alone takes the parser to `v1`
      without completing. */
  lemma FeedQuiet(v: ParserView, b: byte, rest: seq<byte>, v1: ParserView)
    requires Wf(v) && Step(v, b) == (v1, false)
    ensures FeedAll(v, [b] + rest).0 == FeedAll(v1, rest).0
    ensures FeedAll(v, [b] + rest).1 == [false] + FeedAll(v1, rest).1
  {
    FeedOne(v, b, rest);
  }

  /** Each header byte in turn, as one step with the rest of the stream
      after it. */
  lemma FeedHeaderLow(v: ParserView, rest: seq<byte>)
    requires Wf(v) && v.state == WaitHeader1
    ensures FeedAll(v, [FrameHeaderLow] + rest).0 == FeedAll(v.(state := WaitHeader2), rest).0
    ensures FeedAll(v, [FrameHeaderLow] + rest).1 == [false] + FeedAll(v.(state := WaitHeader2), rest).1
  {
    FeedQuiet(v, FrameHeaderLow, rest, v.(state := WaitHeader2));
  }

  lemma FeedHeaderHigh(v: ParserView, rest: seq<byte>)
    requires Wf(v) && v.state == WaitHeader2
    ensures var v1 := v.(header := FrameHeader, state := WaitType);
      FeedAll(v, [FrameHeaderHigh] + rest) == (FeedAll(v1, rest).0, [false] + FeedAll(v1, rest).1)
  {
    FeedQuiet(v, FrameHeaderHigh, rest, v.(header := FrameHeader, state := WaitType));
  }

  lemma FeedType(v: ParserView, t: byte, rest: seq<byte>)
    requires Wf(v) && v.state == WaitType
    ensures var v1 := v.(ftype := t, state := WaitLength1);
      FeedAll(v, [t] + rest) == (FeedAll(v1, rest).0, [false] + FeedAll(v1, rest).1)
  {
    FeedQuiet(v, t, rest, v.(ftype := t, state := WaitLength1));
  }

  lemma FeedLengthLow(v: ParserView, lo: byte, rest: seq<byte>)
    requires Wf(v) && v.state == WaitLength1
    ensures var v1 := v.(len := lo as int, state := WaitLength2);
      FeedAll(v, [lo] + rest) == (FeedAll(v1, rest).0, [false] + FeedAll(v1, rest).1)
  {
    FeedQuiet(v, lo, rest, v.(len := lo as int, state := WaitLength2));
  }

  lemma FeedLengthHigh(v: ParserView, hi: byte, rest: seq<byte>)
    requires Wf(v) && v.state == WaitLength2
    ensures var v1 := LengthComplete(v, hi);
      FeedAll(v, [hi] + rest) == (FeedAll(v1, rest).0, [false] + FeedAll(v1, rest).1)
  {
    FeedQuiet(v, hi, rest, LengthComplete(v, hi));
  }

  /** The two length bytes, low first: the length is assembled and the
      payload buffer allocated; neither call completes. */
  lemma LengthPhase(v: ParserView, lo: byte, hi: byte)
    requires Wf(v) && v.state == WaitLength1
    ensures var v1 := v.(len := lo as int, state := WaitLength2);
      FeedAll(v, [lo] + ([hi] + [])) == (LengthComplete(v1, hi), [false, false])
  {
    var v1 := v.(len := lo as int, state := WaitLength2);
    FeedLengthHigh(v1, hi, []);
    FeedLengthLow(v, lo, [hi] + []);
    assert [false] + ([false] + []) == [false, false];
  }

  /** The type byte and the two length bytes. */
  lemma TypeLengthPhase(v: ParserView, t: byte, lo: byte, hi: byte)
    requires Wf(v) && v.state == WaitType
    ensures var v1 := v.(ftype := t, len := lo as int, state := WaitLength2);
      FeedAll(v, [t] + ([lo] + ([hi] + []))) == (LengthComplete(v1, hi), [false, false, false])
  {
    var v1 := v.(ftype := t, state := WaitLength1);
    LengthPhase(v1, lo, hi);
    FeedType(v, t, [lo] + ([hi] + []));
    assert [false] + [false, false] == [false, false, false];
  }

  /** The header marker, the type and the two length bytes as five calls
      that all return 0. */
  lemma HeaderRun(v: ParserView, t: byte, lo: byte, hi: byte)
    requires Wf(v) && v.state == WaitHeader1
    ensures var v4 := v.(header := FrameHeader, ftype := t, len := lo as int, state := WaitLength2);
      FeedAll(v, [FrameHeaderLow] + ([FrameHeaderHigh] + ([t] + ([lo] + ([hi] + []))))) == (LengthComplete(v4, hi), Falses(5))
  {
    var s2 := [t] + ([lo] + ([hi] + []));
    var v1 := v.(state := WaitHeader2);
    var v2 := v1.(header := FrameHeader, state := WaitType);
    TypeLengthPhase(v2, t, lo, hi);
    FeedHeaderHigh(v1, s2);
    FeedHeaderLow(v, [FrameHeaderHigh] + s2);
    assert [false] + ([false] + [false, false, false]) == Falses(5);
  }

  /** The five header bytes of a frame take a parser waiting for a header
      to WAIT_DATA with the type and length recorded and a zeroed payload
      buffer of that length; no call completes. */
  lemma HeaderPhase(v: ParserView, t: byte, n: u16)
    requires Wf(v) && v.state == WaitHeader1
    ensures FeedAll(v, FrameHead(t, n))
            == (v.(header := FrameHeader, ftype := t, len := n, data := Zeros(n), dataIndex := 0, state := WaitData), Falses(5))
  {
    var lo, hi := Le16(n)[0], Le16(n)[1];
    HeadBytes(t, n);
    LengthOf(v, t, lo, hi, n);
    HeaderRun(v, t, lo, hi);
  }

  /** The length bytes of `n` reassemble to `n`. */
  lemma LengthOf(v: ParserView, t: byte, lo: byte, hi: byte, n: u16)
    requires Wf(v) && lo as int + 0x100 * hi as int == n
    ensures var v4 := v.(header := FrameHeader, ftype := t, len := lo as int, state := WaitLength2);
      LengthComplete(v4, hi)
      == v.(header := FrameHeader, ftype := t, len := n, data := Zeros(n), dataIndex := 0, state := WaitData)
  {
  }

  /** One payload byte in WAIT_DATA, as one step with the rest of the
      stream after it. */
  lemma FeedData(v: ParserView, b: byte, rest: seq<byte>)
    requires Wf(v) && v.state == WaitData
    ensures var v1 := StoreData(v, b);
      FeedAll(v, [b] + rest) == (FeedAll(v1, rest).0, [false] + FeedAll(v1, rest).1)
  {
    FeedQuiet(v, b, rest, StoreData(v, b));
  }

  /** One payload byte at cursor `i`: it is stored at `i`, the cursor
      moves on, and the parser waits for the CRC once the cursor reaches
      the length. */
  lemma StoreNext(v: ParserView, d: seq<byte>, i: nat)
    requires Wf(v) && v.state == WaitData && v.len == |d| && i < |d|
    requires v.dataIndex == i && |v.data| == |d| && v.data[..i] == d[..i]
    ensures var v1 := StoreData(v, d[i]);
      && v1 == v.(data := v.data[i := d[i]], dataIndex := i + 1, state := v1.state)
      && v1.data[..i + 1] == d[..i + 1]
      && (if i + 1 < |d| then v1.state == WaitData else v1.state == WaitCrc1 && v1.data == d)
  {
    var v1 := StoreData(v, d[i]);
    assert v1.data[..i + 1] == d[..i + 1];
  }

  /** The payload bytes from cursor `i` on fill the buffer with `d` and
      take the parser to WAIT_CRC_1 with the cursor at the end. */
  lemma {:induction false} DataPhase(v: ParserView, d: seq<byte>, i: nat)
    requires Wf(v) && v.state == WaitData && v.len == |d| && i < |d|
    requires v.dataIndex == i && v.data[..i] == d[..i]
    ensures FeedAll(v, d[i..]).1 == Falses(|d| - i)
    ensures FeedAll(v, d[i..]).0 == v.(data := d, dataIndex := |d|, state := WaitCrc1)
    decreases |d| - i
  {
    var v1 := StoreData(v, d[i]);
    StoreNext(v, d, i);
    assert d[i..] == [d[i]] + d[i + 1..];
    FeedData(v, d[i], d[i + 1..]);
    if i + 1 == |d| {
      assert d[i + 1..] == [];
    } else {
      DataPhase(v1, d, i + 1);
    }
  }

  /** Payload bytes from cursor `i` up to `j`, short of the end: they are
      stored in place, the cursor reaches `j` and the parser still waits
      for data. */
  lemma {:induction false} DataPrefix(v: ParserView, d: seq<byte>, i: nat, j: nat)
    requires Wf(v) && v.state == WaitData && v.len == |d| && i <= j < |d|
    requires v.dataIndex == i && |v.data| == |d| && v.data[..i] == d[..i]
    ensures FeedAll(v, d[i..j]).1 == Falses(j - i)
    ensures FeedAll(v, d[i..j]).0 == v.(data := d[..j] + v.data[j..], dataIndex := j)
    decreases j - i
  {
    if i == j {
      assert d[i..j] == [];
      assert v.data == d[..i] + v.data[i..];
    } else {
      var v1 := StoreData(v, d[i]);
      StoreNext(v, d, i);
      assert v1.data[j..] == v.data[j..];
      assert d[i..j] == [d[i]] + d[i + 1..j];
      FeedData(v, d[i], d[i + 1..j]);
      DataPrefix(v1, d, i + 1, j);
    }
  }

  /** The two CRC bytes, low first, each as one step with the rest of the
      stream after it, and together: the received CRC is assembled. */
  lemma FeedCrcLow(v: ParserView, lo: byte, rest: seq<byte>)
    requires Wf(v) && v.state == WaitCrc1
    ensures var v1 := v.(crc := lo as bv16, state := WaitCrc2);
      FeedAll(v, [lo] + rest) == (FeedAll(v1, rest).0, [false] + FeedAll(v1, rest).1)
  {
    FeedQuiet(v, lo, rest, v.(crc := lo as bv16, state := WaitCrc2));
  }

  lemma FeedCrcHigh(v: ParserView, hi: byte, rest: seq<byte>)
    requires Wf(v) && v.state == WaitCrc2
    ensures var v1 := v.(crc := v.crc | ((hi as bv16) << 8), state := WaitTail1);
      FeedAll(v, [hi] + rest) == (FeedAll(v1, rest).0, [false] + FeedAll(v1, rest).1)
  {
    FeedQuiet(v, hi, rest, v.(crc := v.crc | ((hi as bv16) << 8), state := WaitTail1));
  }

  lemma CrcPhase(v: ParserView, c: bv16)
    requires Wf(v) && v.state == WaitCrc1
    ensures FeedAll(v, CrcBytes(c)) == (v.(crc := c, state := WaitTail1), [false, false])
  {
    CrcBytesDecode(c);
    var lo, hi := CrcBytes(c)[0], CrcBytes(c)[1];
    assert CrcBytes(c) == [lo] + ([hi] + []);
    var v1 := v.(crc := lo as bv16, state := WaitCrc2);
    FeedCrcHigh(v1, hi, []);
    FeedCrcLow(v, lo, [hi] + []);
    assert [false] + ([false] + []) == [false, false];
  }

  /** The two tail bytes: the first moves to WAIT_TAIL_2, the second
      completes exactly when the received CRC is the expected one. */
  lemma TailBytes(v: ParserView)
    requires Wf(v) && v.state == WaitTail1
    ensures var ok := v.crc == ExpectedCrc(v);
      FeedAll(v, [FrameTailLow, FrameTailHigh])
      == (v.(state := if ok then WaitTail2 else WaitHeader1), [false, ok])
  {
    var ok := v.crc == ExpectedCrc(v);
    var v1 := v.(state := WaitTail2);
    assert ExpectedCrc(v1) == ExpectedCrc(v);
    assert [FrameTailLow, FrameTailHigh] == [FrameTailLow] + ([FrameTailHigh] + []);
    FeedOne(v1, FrameTailHigh, []);
    FeedQuiet(v, FrameTailLow, [FrameTailHigh] + [], v1);
    assert [false] + ([ok] + []) == [false, ok];
  }

  /** The CRC bytes and the tail: three calls that return 0, then a fourth
      that returns 1 exactly when the received CRC is the expected one; the
      parser keeps its value on success and waits for a new header
      otherwise. */
  lemma TailPhase(v: ParserView, c: bv16)
    requires Wf(v) && v.state == WaitCrc1
    ensures FeedAll(v, CrcBytes(c) + [FrameTailLow, FrameTailHigh])
            == (v.(crc := c, state := if c == ExpectedCrc(v) then WaitTail2 else WaitHeader1),
                [false, false, false, c == ExpectedCrc(v)])
  {
    var ok := c == ExpectedCrc(v);
    var v2 := v.(crc := c, state := WaitTail1);
    assert ExpectedCrc(v2) == ExpectedCrc(v);
    CrcPhase(v, c);
    TailBytes(v2);
    Compose(v, CrcBytes(c), [FrameTailLow, FrameTailHigh], v2, [false, false], v2.(state := if ok then WaitTail2 else WaitHeader1), [false, ok]);
    assert [false, false] + [false, ok] == [false, false, false, ok];
  }

  /** What the parser holds once it has accepted the frame for `t` and `d`. */
  function Accepted(t: byte, d: seq<byte>): ParserView
    requires |d| < 0x1_0000
  {
    ParserView(WaitTail2, FrameHeader, t, |d|, d, Crc.Crc16(FrameHead(t, |d|) + d), |d|)
  }

  /** The whole payload from cursor 0. */
  lemma DataAll(v: ParserView, d: seq<byte>)
    requires Wf(v) && v.state == WaitData && v.len == |d| && 1 <= |d| && v.dataIndex == 0
    ensures FeedAll(v, d) == (v.(data := d, dataIndex := |d|, state := WaitCrc1), Falses(|d|))
  {
    assert d[0..] == d;
    DataPhase(v, d, 0);
  }

  /** With the header, type, length and payload of a frame recorded, the
      CRC the parser expects is the CRC the sender appended. */
  lemma ExpectedOfFrame(v: ParserView, t: byte, d: seq<byte>)
    requires |d| < 0x1_0000 && 1 <= |d|
    requires v.header == FrameHeader && v.ftype == t && v.len == |d| && v.data == d
    ensures ExpectedCrc(v) == Crc.Crc16(FrameHead(t, |d|) + d)
  {
    Crc.Crc16Split(FrameHead(t, |d|), d);
  }

  /** From WAIT_DATA on: the payload, the CRC and the tail of a frame. */
  lemma BodyRun(t: byte, d: seq<byte>, crc0: bv16)
    requires 1 <= |d| < 0x1_0000
    ensures var vh := ParserView(WaitData, FrameHeader, t, |d|, Zeros(|d|), crc0, 0);
      var c := Crc.Crc16(FrameHead(t, |d|) + d);
      FeedAll(vh, d + (CrcBytes(c) + [FrameTailLow, FrameTailHigh]))
      == (Accepted(t, d), Falses(|d|) + [false, false, false, true])
  {
    var vh := ParserView(WaitData, FrameHeader, t, |d|, Zeros(|d|), crc0, 0);
    var c := Crc.Crc16(FrameHead(t, |d|) + d);
    var vd := vh.(data := d, dataIndex := |d|, state := WaitCrc1);
    DataAll(vh, d);
    ExpectedOfFrame(vd, t, d);
    TailPhase(vd, c);
    Compose(vh, d, CrcBytes(c) + [FrameTailLow, FrameTailHigh], vd, Falses(|d|), Accepted(t, d), [false, false, false, true]);
  }

  /** A frame is its head, then its payload, CRC and tail. */
  lemma FrameSplit(t: byte, d: seq<byte>)
    requires |d| < 0x1_0000
    ensures var c := Crc.Crc16(FrameHead(t, |d|) + d);
      FrameBytes(t, d) == FrameHead(t, |d|) + (d + (CrcBytes(c) + [FrameTailLow, FrameTailHigh]))
  {
    FrameParts(t, d);
  }

  /** Round trip: a parser waiting for a header that is fed the frame
      `protocol_pack_frame` builds for a non-empty payload returns 0 for
      every byte but the last, 1 for the last, and then holds the type, the
      length and the payload of that frame. */
  lemma RoundTrip(v: ParserView, t: byte, d: seq<byte>)
    requires Wf(v) && v.state == WaitHeader1 && 1 <= |d| < 0x1_0000
    ensures FeedAll(v, FrameBytes(t, d)) == (Accepted(t, d), Falses(|d| + 8) + [true])
  {
    var c := Crc.Crc16(FrameHead(t, |d|) + d);
    var rest := d + (CrcBytes(c) + [FrameTailLow, FrameTailHigh]);
    FrameSplit(t, d);
    HeaderPhase(v, t, |d|);
    BodyRun(t, d, v.crc);
    Compose(v, FrameHead(t, |d|), rest, ParserView(WaitData, FrameHeader, t, |d|, Zeros(|d|), v.crc, 0), Falses(5),
            Accepted(t, d), Falses(|d|) + [false, false, false, true]);
    FalsesJoin(|d|);
  }

  /** Five zeros, then `n` zeros and three more, then a one. */
  lemma FalsesJoin(n: nat)
    ensures Falses(5) + (Falses(n) + [false, false, false, true]) == Falses(n + 8) + [true]
  {
    var l := Falses(5) + (Falses(n) + [false, false, false, true]);
    var r := Falses(n + 8) + [true];
    assert |l| == |r|;
    forall i | 0 <= i < |l|
      ensures l[i] == r[i]
    {
      if i < 5 {
      } else if i < n + 5 {
        assert l[i] == Falses(n)[i - 5];
      } else {
      }
    }
  }

  /** Two bytes from WAIT_CRC_2 when the second is not the first tail byte:
      the first completes the CRC, the second sends the parser back to
      WAIT_HEADER_1. */
  lemma CrcThenMismatch(v: ParserView, b1: byte, b2: byte)
    requires Wf(v) && v.state == WaitCrc2 && b2 != FrameTailLow
    ensures var v3 := v.(crc := v.crc | ((b1 as bv16) << 8), state := WaitTail1);
      FeedAll(v, [b1] + ([b2] + [])) == (v3.(state := WaitHeader1), [false, false])
  {
    var v3 := v.(crc := v.crc | ((b1 as bv16) << 8), state := WaitTail1);
    var v4 := v3.(state := WaitHeader1);
    assert FeedAll(v4, []) == (v4, []);
    FeedQuiet(v3, b2, [], v4);
    FeedQuiet(v, b1, [b2] + [], v3);
    assert [false] + ([false] + []) == [false, false];
  }

  /** With length 0 the first byte after the header is still taken as a
      payload byte: nothing is stored, the cursor moves to 1 and the parser
      waits for the CRC. */
  lemma EmptyPayloadByte(v: ParserView, x: byte, rest: seq<byte>)
    requires Wf(v) && v.state == WaitData && v.len == 0 && v.dataIndex == 0
    ensures var v1 := v.(dataIndex := 1, state := WaitCrc1);
      FeedAll(v, [x] + rest) == (FeedAll(v1, rest).0, [false] + FeedAll(v1, rest).1)
  {
    FeedData(v, x, rest);
  }

  /** The four bytes that follow the header of a length-0 frame. */
  lemma EmptyBody(v: ParserView, lo: byte, hi: byte)
    requires Wf(v) && v.state == WaitData && v.len == 0 && v.dataIndex == 0
    ensures var r := FeedAll(v, [lo] + ([hi] + ([FrameTailLow] + ([FrameTailHigh] + []))));
      r.0.state == WaitHeader1 && r.1 == [false, false, false, false]
  {
    var v1 := v.(dataIndex := 1, state := WaitCrc1);
    var v2 := v1.(crc := hi as bv16, state := WaitCrc2);
    var tail := [FrameTailLow] + ([FrameTailHigh] + []);
    CrcThenMismatch(v2, FrameTailLow, FrameTailHigh);
    FeedQuiet(v1, hi, tail, v2);
    EmptyPayloadByte(v, lo, [hi] + tail);
    assert [false] + ([false] + [false, false]) == [false, false, false, false];
  }

  /** The length-0 frame: its head, its CRC bytes and the tail. */
  lemma EmptyFrameSplit(t: byte)
    ensures var c := Crc.Crc16(FrameHead(t, 0) + []);
      FrameBytes(t, []) == FrameHead(t, 0) + ([CrcBytes(c)[0]] + ([CrcBytes(c)[1]] + ([FrameTailLow] + ([FrameTailHigh] + []))))
  {
    var c := Crc.Crc16(FrameHead(t, 0) + []);
    var head := FrameHead(t, 0);
    var crcBytes := CrcBytes(c);
    var body := [crcBytes[0]] + ([crcBytes[1]] + ([FrameTailLow] + ([FrameTailHigh] + [])));
    FrameParts(t, []);
    assert head + [] == head;
    assert crcBytes + [FrameTailLow, FrameTailHigh] == body;
    assert head + crcBytes + [FrameTailLow, FrameTailHigh] == head + body;
  }

  /** The returns of a length-0 frame's nine bytes: five header calls and
      four tail calls, none of which completes a frame. */
  lemma FalsesFiveFour()
    ensures Falses(5) + [false, false, false, false] == Falses(9)
  {
  }

  /** The returns of a length-0 frame padded with one byte: five header
      calls, four quiet calls and a last one that completes a frame. */
  lemma FalsesFiveFourOne()
    ensures Falses(5) + [false, false, false, false, true] == Falses(9) + [true]
  {
  }

  /** The length-0 frame `protocol_pack_frame` builds is never recognised:
      the parser takes its first CRC byte for a payload byte, so every call
      returns 0 and the tail's last byte finds the parser out of step,
      back in WAIT_HEADER_1. */
  lemma EmptyPayloadNeverCompletes(v: ParserView, t: byte)
    requires Wf(v) && v.state == WaitHeader1
    ensures var r := FeedAll(v, FrameBytes(t, []));
      r.1 == Falses(9) && r.0.state == WaitHeader1
  {
    var c := Crc.Crc16(FrameHead(t, 0) + []);
    var body := [CrcBytes(c)[0]] + ([CrcBytes(c)[1]] + ([FrameTailLow] + ([FrameTailHigh] + [])));
    EmptyFrameSplit(t);
    var vh := v.(header := FrameHeader, ftype := t, len := 0, data := Zeros(0), dataIndex := 0, state := WaitData);
    HeaderPhase(v, t, 0);
    EmptyBody(vh, CrcBytes(c)[0], CrcBytes(c)[1]);
    FeedAllAppend(v, FrameHead(t, 0), body);
    FalsesFiveFour();
  }

  /** A filler byte, the CRC and the tail after the header of a length-0
      frame. */
  lemma PaddedBody(v: ParserView, x: byte, c: bv16)
    requires Wf(v) && v.state == WaitData && v.len == 0 && v.dataIndex == 0
    requires c == ExpectedCrc(v)
    ensures FeedAll(v, [x] + (CrcBytes(c) + [FrameTailLow, FrameTailHigh]))
            == (v.(dataIndex := 1, crc := c, state := WaitTail2), [false, false, false, false, true])
  {
    var v1 := v.(dataIndex := 1, state := WaitCrc1);
    assert ExpectedCrc(v1) == c;
    TailPhase(v1, c);
    EmptyPayloadByte(v, x, CrcBytes(c) + [FrameTailLow, FrameTailHigh]);
    assert [false] + [false, false, false, true] == [false, false, false, false, true];
  }

  /** The sender-side workaround the length-0 quirk calls for: one filler
      byte between the header and the CRC. The parser swallows it as the
      missing payload byte and then completes on the CRC of the header. */
  lemma PaddedEmptyCompletes(v: ParserView, t: byte, x: byte)
    requires Wf(v) && v.state == WaitHeader1
    ensures var c := Crc.Crc16(FrameHead(t, 0));
      var r := FeedAll(v, FrameHead(t, 0) + ([x] + (CrcBytes(c) + [FrameTailLow, FrameTailHigh])));
      r.1 == Falses(9) + [true] && r.0.state == WaitTail2 && r.0.ftype == t && r.0.len == 0
  {
    var c := Crc.Crc16(FrameHead(t, 0));
    var vh := v.(header := FrameHeader, ftype := t, len := 0, data := Zeros(0), dataIndex := 0, state := WaitData);
    HeaderPhase(v, t, 0);
    PaddedBody(vh, x, c);
    Compose(v, FrameHead(t, 0), [x] + (CrcBytes(c) + [FrameTailLow, FrameTailHigh]), vh, Falses(5),
            vh.(dataIndex := 1, crc := c, state := WaitTail2), [false, false, false, false, true]);
    FalsesFiveFourOne();
  }

  /** A repeated first header byte loses the frame: in WAIT_HEADER_2 a
      second 55 sends the parser back to WAIT_HEADER_1 without looking at it
      as a new first byte, so 55 55 AA leaves the parser where it started. */
  lemma HeaderResync(v: ParserView)
    requires Wf(v) && v.state == WaitHeader1
    ensures FeedAll(v, [FrameHeaderLow, FrameHeaderLow, FrameHeaderHigh]) == (v, [false, false, false])
  {
    var v1 := v.(state := WaitHeader2);
    assert FeedAll(v, []) == (v, []);
    FeedQuiet(v, FrameHeaderHigh, [], v);
    FeedQuiet(v1, FrameHeaderLow, [FrameHeaderHigh] + [], v);
    FeedQuiet(v, FrameHeaderLow, [FrameHeaderLow] + ([FrameHeaderHigh] + []), v1);
    assert [FrameHeaderLow, FrameHeaderLow, FrameHeaderHigh] == [FrameHeaderLow] + ([FrameHeaderLow] + ([FrameHeaderHigh] + []));
    assert [false] + ([false] + ([false] + [])) == [false, false, false];
  }

  /** `m` zeros and then `n` zeros. */
  lemma FalsesAdd(m: nat, n: nat)
    ensures Falses(m) + Falses(n) == Falses(m + n)
  {
    assert |Falses(m) + Falses(n)| == m + n;
  }

  /** The parser after the header of the frame for `t` and `d` and its
      first `k` payload bytes, starting from `v`: type and length recorded,
      `d[..k]` stored in the zeroed buffer, the cursor at `k`. */
  function Partial(v: ParserView, t: byte, d: seq<byte>, k: nat): (r: ParserView)
    requires k <= |d| < 0x1_0000
    ensures Wf(r) && r.state == WaitData && r.dataIndex == k && |r.data| == |d| && r.data[..k] == d[..k]
  {
    v.(header := FrameHeader, ftype := t, len := |d|, data := d[..k] + Zeros(|d| - k), dataIndex := k, state := WaitData)
  }

  /** A frame cut inside its payload, first half: the header and `k`
      payload bytes report nothing and leave the parser at `Partial`. */
  lemma HeadAndPrefix(v: ParserView, t: byte, d: seq<byte>, k: nat)
    requires Wf(v) && v.state == WaitHeader1 && k < |d| < 0x1_0000
    ensures FeedAll(v, FrameHead(t, |d|) + d[..k]).0 == Partial(v, t, d, k)
    ensures FeedAll(v, FrameHead(t, |d|) + d[..k]).1 == Falses(5 + k)
  {
    var vh := v.(header := FrameHeader, ftype := t, len := |d|, data := Zeros(|d|), dataIndex := 0, state := WaitData);
    HeaderPhase(v, t, |d|);
    DataPrefix(vh, d, 0, k);
    assert d[0..k] == d[..k];
    assert Zeros(|d|)[k..] == Zeros(|d| - k);
    Compose(v, FrameHead(t, |d|), d[..k], vh, Falses(5), Partial(v, t, d, k), Falses(k));
    FalsesAdd(5, k);
  }

  /** The CRC bytes and the first tail byte from WAIT_CRC_1: the CRC is
      recorded and the parser waits for the last tail byte. */
  lemma CrcTailLow(v: ParserView, c: bv16)
    requires Wf(v) && v.state == WaitCrc1
    ensures FeedAll(v, CrcBytes(c) + [FrameTailLow]) == (v.(crc := c, state := WaitTail2), [false, false, false])
  {
    var v2 := v.(crc := c, state := WaitTail1);
    var v3 := v2.(state := WaitTail2);
    CrcPhase(v, c);
    assert FeedAll(v3, []) == (v3, []);
    FeedQuiet(v2, FrameTailLow, [], v3);
    assert [FrameTailLow] + [] == [FrameTailLow] && [false] + [] == [false];
    Compose(v, CrcBytes(c), [FrameTailLow], v2, [false, false], v3, [false]);
    assert [false, false] + [false] == [false, false, false];
  }

  /** A frame cut inside its payload, second half without the last byte:
      the rest of the payload, the CRC and the first tail byte report
      nothing and leave the parser holding the frame. */
  lemma SuffixToTailLow(v: ParserView, t: byte, d: seq<byte>, k: nat)
    requires k < |d| < 0x1_0000
    ensures var c := Crc.Crc16(FrameHead(t, |d|) + d);
      && FeedAll(Partial(v, t, d, k), d[k..] + (CrcBytes(c) + [FrameTailLow])).0 == Accepted(t, d)
      && FeedAll(Partial(v, t, d, k), d[k..] + (CrcBytes(c) + [FrameTailLow])).1 == Falses(|d| - k + 3)
  {
    var c := Crc.Crc16(FrameHead(t, |d|) + d);
    var vp := Partial(v, t, d, k);
    var vd := vp.(data := d, dataIndex := |d|, state := WaitCrc1);
    DataPhase(vp, d, k);
    CrcTailLow(vd, c);
    Compose(vp, d[k..], CrcBytes(c) + [FrameTailLow], vd, Falses(|d| - k), vd.(crc := c, state := WaitTail2), [false, false, false]);
    FalsesAdd(|d| - k, 3);
  }

  /** The last tail byte completes the frame a parser holds, leaving it as
      it was. */
  lemma AcceptedCompletes(t: byte, d: seq<byte>)
    requires 1 <= |d| < 0x1_0000
    ensures Step(Accepted(t, d), FrameTailHigh) == (Accepted(t, d), true)
  {
    var v := Accepted(t, d);
    ExpectedOfFrame(v, t, d);
    var r := Step(v, FrameTailHigh);
    assert r.1 && r.0 == v;
  }

  /** A frame is everything up to its first tail byte, then its last
      tail byte. */
  lemma FrameLast(t: byte, d: seq<byte>)
    requires |d| < 0x1_0000
    ensures var c := Crc.Crc16(FrameHead(t, |d|) + d);
      FrameBytes(t, d) == (FrameHead(t, |d|) + (d + (CrcBytes(c) + [FrameTailLow]))) + [FrameTailHigh]
  {
    FrameParts(t, d);
  }

  /** A whole frame but its last byte: a parser waiting for a header
      reports nothing and ends up holding the frame. */
  lemma FrameBeforeLast(v: ParserView, t: byte, d: seq<byte>)
    requires Wf(v) && v.state == WaitHeader1 && 1 <= |d| < 0x1_0000
    ensures var c := Crc.Crc16(FrameHead(t, |d|) + d);
      var init := FrameHead(t, |d|) + (d + (CrcBytes(c) + [FrameTailLow]));
      FeedAll(v, init).0 == Accepted(t, d) && FeedAll(v, init).1 == Falses(|d| + 8)
  {
    var c := Crc.Crc16(FrameHead(t, |d|) + d);
    var tail := CrcBytes(c) + [FrameTailLow];
    HeadAndPrefix(v, t, d, 0);
    SuffixToTailLow(v, t, d, 0);
    QuietChain(v, FrameHead(t, |d|) + d[..0], d[0..] + tail, Partial(v, t, d, 0), Accepted(t, d), 5, |d| + 3);
    CutAtZero(FrameHead(t, |d|), d, tail);
  }

  /** Two runs that complete nothing, one after the other. */
  lemma QuietChain(v: ParserView, a: seq<byte>, b: seq<byte>, va: ParserView, vb: ParserView, m: nat, n: nat)
    requires Wf(v) && FeedAll(v, a).0 == va && FeedAll(v, a).1 == Falses(m)
    requires FeedAll(va, b).0 == vb && FeedAll(va, b).1 == Falses(n)
    ensures FeedAll(v, a + b).0 == vb && FeedAll(v, a + b).1 == Falses(m + n)
  {
    FeedAllAppend(v, a, b);
    FalsesAdd(m, n);
  }

  /** A cut before the first element changes nothing. */
  lemma CutAtZero(head: seq<byte>, d: seq<byte>, tail: seq<byte>)
    ensures (head + d[..0]) + (d[0..] + tail) == head + (d + tail)
  {
    assert d[..0] == [] && d[0..] == d;
  }

  /** No byte of the buffer is the first header byte. */
  predicate NoHeaderByte(buf: seq<byte>) {
    forall i :: 0 <= i < |buf| ==> buf[i] != FrameHeaderLow
  }

  /** Bytes none of which is the first header byte leave a parser waiting
      for a header where it is, and complete nothing. */
  lemma {:induction false} NoHeaderQuiet(v: ParserView, g: seq<byte>)
    requires Wf(v) && v.state == WaitHeader1
    requires NoHeaderByte(g)
    ensures FeedAll(v, g).0 == v && FeedAll(v, g).1 == Falses(|g|)
    decreases |g|
  {
    if g != [] {
      assert g == [g[0]] + g[1..];
      FeedQuiet(v, g[0], g[1..], v);
      NoHeaderQuiet(v, g[1..]);
      assert [false] + Falses(|g| - 1) == Falses(|g|);
    }
  }
}
